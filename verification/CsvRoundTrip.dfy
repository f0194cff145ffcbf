/** Importing an exported CSV file, for both formats and arbitrary texts. */
module CsvRoundTrip {
  import opened Wrappers
  import opened Seqs
  import opened Utf8
  import opened Text
  import opened Items
  import opened CsvTransfer
  import Csv

  // ---- The exported bytes are the CSV text of the plain records ----

  lemma {:induction false} AsciiOrHigh(c: char)
    ensures forall i :: 0 <= i < |EncodeChar(c)| && EncodeChar(c)[i] < 0x80 ==> EncodeChar(c) == [c as int]
  {
  }

  lemma {:induction false} DoubleConcat(a: Csv.Field, b: Csv.Field)
    ensures Csv.DoubleBackslashes(a + b) == Csv.DoubleBackslashes(a) + Csv.DoubleBackslashes(b)
  {
    if a == [] {
      assert a + b == b;
    } else {
      DoubleConcat(a[1..], b);
      ConcatTail(a, b);
      var head := if a[0] == Csv.BACKSLASH then [Csv.BACKSLASH, Csv.BACKSLASH] else [a[0]];
      ConcatAssociative(head, Csv.DoubleBackslashes(a[1..]), Csv.DoubleBackslashes(b));
    }
  }

  lemma {:induction false} NothingToDouble(f: Csv.Field)
    requires Csv.BACKSLASH !in f
    ensures Csv.DoubleBackslashes(f) == f
  {
    if f != [] {
      NothingToDouble(f[1..]);
    }
  }

  /** Doubling the backslash characters of a text doubles the backslash bytes. */
  lemma {:induction false} DoubleEncoded(s: string)
    ensures Csv.DoubleBackslashes(Encode(s)) == Encode(DoubledBackslashes(s))
  {
    if s != [] {
      hide EncodeChar;
      DoubleEncoded(s[1..]);
      DoubleConcat(EncodeChar(s[0]), Encode(s[1..]));
      EncodeConcat(if s[0] == '\\' then "\\\\" else [s[0]], DoubledBackslashes(s[1..]));
      DoubleEncodedChar(s[0]);
    }
  }

  lemma {:induction false} DoubleEncodedChar(c: char)
    ensures Csv.DoubleBackslashes(EncodeChar(c)) == Encode(if c == '\\' then "\\\\" else [c])
  {
    if c == '\\' {
      var f: Csv.Field := [Csv.BACKSLASH];
      assert EncodeChar(c) == f && f[1..] == [];
      assert Csv.DoubleBackslashes(f) == [Csv.BACKSLASH, Csv.BACKSLASH] + Csv.DoubleBackslashes([]);
      assert "\\\\"[1..] == ['\\'];
      assert Encode("\\\\") == EncodeChar('\\') + Encode(['\\']);
    } else {
      AsciiOrHigh(c);
      NothingToDouble(EncodeChar(c));
    }
    assert [c][1..] == [];
    assert Encode([c]) == EncodeChar(c) + Encode([]);
  }

  lemma {:induction false} KeepsWithoutBackslash(s: string)
    requires '\\' !in s
    ensures DoubledBackslashes(s) == s
  {
    if s != [] {
      KeepsWithoutBackslash(s[1..]);
    }
  }

  lemma {:induction false} PreparedRecord(flavor: Flavor, values: seq<string>)
    ensures Csv.PrepareRecord(ExportDialect(flavor), EncodeRecord(values))
            == EncodeRecord(PreparedValues(flavor, values))
  {
    hide Encode, Csv.DoubleBackslashes, DoubledBackslashes;
    forall i | 0 <= i < |values|
      ensures Csv.Prepare(ExportDialect(flavor), Encode(values[i])) == Encode(PreparedValues(flavor, values)[i])
    {
      DoubleEncoded(values[i]);
    }
  }

  lemma {:induction false} KeePassColumnsHaveNoBackslash()
    ensures forall i :: 0 <= i < 5 ==> DoubledBackslashes(Columns(KeePass)[i]) == Columns(KeePass)[i]
  {
    hide DoubledBackslashes;
    KeepsWithoutBackslash("Account");
    KeepsWithoutBackslash("Login Name");
    KeepsWithoutBackslash("Password");
    KeepsWithoutBackslash("Web Site");
    KeepsWithoutBackslash("Comments");
  }

  lemma {:induction false} ColumnsHaveNoBackslash(flavor: Flavor)
    ensures PreparedValues(flavor, Columns(flavor)) == Columns(flavor)
  {
    hide DoubledBackslashes, Columns;
    KeePassColumnsHaveNoBackslash();
  }

  /** The rows of the file before any quoting. */
  function Rows(flavor: Flavor, secrets: seq<LegacySecret>): (r: seq<Csv.Record>)
    ensures |r| == |secrets|
    ensures forall i :: 0 <= i < |r| ==> r[i] == EncodeRecord(Values(flavor, secrets[i]))
  {
    seq(|secrets|, i requires 0 <= i < |secrets| => EncodeRecord(Values(flavor, secrets[i])))
  }

  function Records(flavor: Flavor, secrets: seq<LegacySecret>): (r: seq<Csv.Record>)
    ensures forall i :: 0 <= i < |r| ==> r[i] != []
  {
    [EncodeRecord(Columns(flavor))] + Rows(flavor, secrets)
  }

  lemma {:induction false} WriteSnoc(d: Csv.Dialect, rs: seq<Csv.Record>, r: Csv.Record)
    requires forall i :: 0 <= i < |rs| ==> rs[i] != []
    requires r != []
    ensures Csv.Write(d, rs + [r]) == Csv.Write(d, rs) + Csv.WriteRecord(d, r)
  {
    hide Csv.WriteRecord;
    if rs == [] {
      assert rs + [r] == [r] && [r][1..] == [];
      assert Csv.Write(d, [r]) == Csv.WriteRecord(d, r) + Csv.Write(d, []);
    } else {
      WriteSnoc(d, rs[1..], r);
      assert (rs + [r])[1..] == rs[1..] + [r];
    }
  }

  lemma {:induction false} PrepareAllSnoc(d: Csv.Dialect, rs: seq<Csv.Record>, r: Csv.Record)
    ensures Csv.PrepareAll(d, rs + [r]) == Csv.PrepareAll(d, rs) + [Csv.PrepareRecord(d, r)]
  {
  }

  lemma {:induction false} ExportIsCsv(flavor: Flavor, secrets: seq<LegacySecret>)
    ensures ExportedCsv(flavor, secrets)
            == Csv.Write(ExportDialect(flavor), Csv.PrepareAll(ExportDialect(flavor), Records(flavor, secrets)))
    decreases |secrets|
  {
    hide Csv.WriteRecord, Values, Columns, PreparedValues, Csv.Prepare;
    var d := ExportDialect(flavor);
    if secrets == [] {
      var header := EncodeRecord(Columns(flavor));
      assert Records(flavor, secrets) == [] + [header];
      PrepareAllSnoc(d, [], header);
      assert Csv.PrepareAll(d, []) == [];
      WriteSnoc(d, [], Csv.PrepareRecord(d, header));
      PreparedRecord(flavor, Columns(flavor));
      ColumnsHaveNoBackslash(flavor);
    } else {
      var last := secrets[|secrets| - 1];
      var init := secrets[..|secrets| - 1];
      var row := EncodeRecord(Values(flavor, last));
      ExportIsCsv(flavor, init);
      assert Records(flavor, secrets) == Records(flavor, init) + [row];
      PrepareAllSnoc(d, Records(flavor, init), row);
      WriteSnoc(d, Csv.PrepareAll(d, Records(flavor, init)), Csv.PrepareRecord(d, row));
      PreparedRecord(flavor, Values(flavor, last));
    }
  }

  // ---- The importer recognises the file ----

  lemma {:induction false} EncodeAscii(s: string)
    requires forall i :: 0 <= i < |s| ==> s[i] as int < 0x80
    ensures |Encode(s)| == |s|
    ensures forall i :: 0 <= i < |s| ==> Encode(s)[i] == s[i] as int
  {
    if s != [] {
      EncodeAscii(s[1..]);
    }
  }

  lemma {:induction false} NothingToProtect(d: Csv.Dialect, f: Csv.Field)
    requires Csv.QUOTE !in f
    ensures Csv.Protect(d, f) == f
  {
    if f != [] {
      NothingToProtect(d, f[1..]);
    }
  }

  lemma {:induction false} QuotedAscii(s: string)
    requires forall i :: 0 <= i < |s| ==> s[i] as int < 0x80 && s[i] != '"'
    ensures Csv.WriteField(Csv.Escaped, Encode(s)) == [Csv.QUOTE] + Encode(s) + [Csv.QUOTE]
  {
    EncodeAscii(s);
    NothingToProtect(Csv.Escaped, Encode(s));
  }

  lemma {:induction false} FirstTwoFields(d: Csv.Dialect, r: Csv.Record)
    requires |r| > 2
    ensures Csv.WriteField(d, r[0]) + [Csv.COMMA] + Csv.WriteField(d, r[1]) + [Csv.COMMA]
            <= Csv.WriteFields(d, r)
  {
    hide Csv.WriteField;
    var rest := r[1..];
    assert Csv.WriteFields(d, rest)
        == Csv.WriteField(d, rest[0]) + [Csv.COMMA] + Csv.WriteFields(d, rest[1..]);
  }

  lemma {:induction false} StartsWithHeader(flavor: Flavor, secrets: seq<LegacySecret>, start: seq<byte>)
    requires start != []
    requires start <= Csv.WriteFields(ExportDialect(flavor), EncodeRecord(Columns(flavor)))
    ensures start <= ExportedCsv(flavor, secrets)
  {
    hide Csv.WriteFields, ExportedRows, Columns;
  }

  lemma {:induction false} EncodedNames()
    ensures Encode("Account") == [65, 99, 99, 111, 117, 110, 116]
    ensures Encode("Login Name") == [76, 111, 103, 105, 110, 32, 78, 97, 109, 101]
  {
    hide Encode;
    EncodeAscii("Account");
    EncodeAscii("Login Name");
  }

  lemma {:induction false} KeePassStart(secrets: seq<LegacySecret>)
    ensures ESCAPED_START <= ExportedCsv(KeePass, secrets)
  {
    hide Encode, Csv.WriteField, Csv.WriteFields, ExportedCsv;
    var header := EncodeRecord(Columns(KeePass));
    assert header[0] == Encode("Account") && header[1] == Encode("Login Name");
    EncodedNames();
    QuotedAscii("Account");
    QuotedAscii("Login Name");
    FirstTwoFields(Csv.Escaped, header);
    StartsWithHeader(KeePass, secrets, ESCAPED_START);
  }

  lemma {:induction false} OnePasswordStart(secrets: seq<LegacySecret>)
    ensures [84] <= ExportedCsv(OnePassword, secrets)
  {
    var header := EncodeRecord(Columns(OnePassword));
    var title := Encode("Title");
    EncodeAscii("Title");
    assert !Csv.NeedsQuotes(Csv.Doubled, title);
    assert header[0] == title;
    StartsWithHeader(OnePassword, secrets, [84]);
  }

  /** The importer reads an exported file in the dialect it was written in and
      gets back every header and field, whatever bytes they hold. */
  lemma {:induction false} ReadExported(flavor: Flavor, secrets: seq<LegacySecret>)
    ensures Csv.Read(ImportDialect(flavor, ExportedCsv(flavor, secrets)), ExportedCsv(flavor, secrets))
            == Records(flavor, secrets)
  {
    var bytes := ExportedCsv(flavor, secrets);
    assert !(Csv.BOM <= bytes) && ImportDialect(flavor, bytes) == ExportDialect(flavor) by {
      hide ExportedCsv;
      if flavor == KeePass {
        KeePassStart(secrets);
        assert ESCAPED_START[0] == bytes[0] == 34;
      } else {
        OnePasswordStart(secrets);
        assert [84 as byte][0] == bytes[0] == 84;
      }
    }
    hide *;
    ExportIsCsv(flavor, secrets);
    Csv.ReadWrite(ExportDialect(flavor), Records(flavor, secrets));
  }

  // ---- The importer finds the columns ----

  lemma {:induction false} FoldedConcat(a: string, b: string)
    ensures Folded(a + b) == Folded(a) + Folded(b)
  {
    if a == [] {
      assert a + b == b;
    } else {
      FoldedConcat(a[1..], b);
      ConcatTail(a, b);
      ConcatAssociative(if IsAsciiAlphanumeric(a[0]) then [ToLower(a[0])] else [], Folded(a[1..]), Folded(b));
    }
  }

  predicate IsLowerWord(w: string) {
    forall i :: 0 <= i < |w| ==> 'a' <= w[i] <= 'z'
  }

  lemma {:induction false} FoldedWord(w: string)
    requires IsLowerWord(w)
    ensures Folded(w) == w
  {
    if w != [] {
      FoldedWord(w[1..]);
    }
  }

  /** A capitalised word folds to its lower-case form. */
  lemma {:induction false} FoldedCapital(c: char, w: string)
    requires IsAsciiAlphanumeric(c) && IsLowerWord(w)
    ensures Folded([c] + w) == [ToLower(c)] + w
  {
    assert ([c] + w)[1..] == w;
    FoldedWord(w);
  }

  lemma {:induction false} FoldedSeparator(c: char)
    requires !IsAsciiAlphanumeric(c)
    ensures Folded([c]) == []
  {
    assert [c][1..] == [];
  }

  lemma {:induction false} TrimsToSelf(s: string)
    requires s != [] && !IsWhitespace(s[0]) && !IsWhitespace(s[|s| - 1])
    ensures Trim(s) == s
  {
  }

  lemma {:induction false} NormalizedWord(c: char, w: string)
    requires IsAsciiAlphanumeric(c) && IsLowerWord(w)
    ensures NormalizedHeader([c] + w) == [ToLower(c)] + w
  {
    TrimsToSelf([c] + w);
    FoldedCapital(c, w);
  }

  lemma {:induction false} NormalizedWords(c: char, w: string, separator: char, c': char, w': string)
    requires IsAsciiAlphanumeric(c) && IsLowerWord(w)
    requires IsAsciiAlphanumeric(c') && IsLowerWord(w')
    requires !IsAsciiAlphanumeric(separator)
    ensures NormalizedHeader([c] + w + [separator] + ([c'] + w')) == [ToLower(c)] + w + ([ToLower(c')] + w')
  {
    TrimsToSelf([c] + w + [separator] + ([c'] + w'));
    FoldedConcat([c] + w + [separator], [c'] + w');
    FoldedConcat([c] + w, [separator]);
    FoldedCapital(c, w);
    FoldedSeparator(separator);
    FoldedCapital(c', w');
  }

  function Names(flavor: Flavor): (r: seq<string>)
    ensures |r| == |Columns(flavor)|
  {
    match flavor
    case OnePassword =>
      ["title", "website", "username", "password", "onetimepassword",
       "favoritestatus", "archivedstatus", "tags", "notes"]
    case KeePass =>
      ["account", "loginname", "password", "website", "comments"]
  }

  lemma {:induction false} OneTimePasswordName()
    ensures NormalizedHeader("One-time password") == "onetimepassword"
  {
    hide Folded;
    var start, end := "One-time", " password";
    assert Folded(start) == "onetime" by {
      FoldedConcat(['O'] + "ne" + ['-'], "time");
      FoldedConcat(['O'] + "ne", ['-']);
      FoldedCapital('O', "ne");
      FoldedSeparator('-');
      FoldedWord("time");
      assert start == ['O'] + "ne" + ['-'] + "time";
    }
    assert Folded(end) == "password" by {
      FoldedConcat([' '], "password");
      FoldedSeparator(' ');
      FoldedWord("password");
      assert end == [' '] + "password";
    }
    assert "One-time password" == start + end;
    TrimsToSelf(start + end);
    FoldedConcat(start, end);
  }

  lemma {:induction false} TextColumnNames()
    ensures NormalizedHeader("Title") == "title"
    ensures NormalizedHeader("Website") == "website"
    ensures NormalizedHeader("Username") == "username"
    ensures NormalizedHeader("Password") == "password"
  {
    hide NormalizedHeader;
    assert NormalizedHeader("Title") == "title" by {
      NormalizedWord('T', "itle");
      assert "Title" == ['T'] + "itle";
    }
    assert NormalizedHeader("Website") == "website" by {
      NormalizedWord('W', "ebsite");
      assert "Website" == ['W'] + "ebsite";
    }
    assert NormalizedHeader("Username") == "username" by {
      NormalizedWord('U', "sername");
      assert "Username" == ['U'] + "sername";
    }
    assert NormalizedHeader("Password") == "password" by {
      NormalizedWord('P', "assword");
      assert "Password" == ['P'] + "assword";
    }
  }

  lemma {:induction false} OtherColumnNames()
    ensures NormalizedHeader("Tags") == "tags"
    ensures NormalizedHeader("Notes") == "notes"
    ensures NormalizedHeader("Account") == "account"
    ensures NormalizedHeader("Comments") == "comments"
  {
    hide NormalizedHeader;
    assert NormalizedHeader("Tags") == "tags" by {
      NormalizedWord('T', "ags");
      assert "Tags" == ['T'] + "ags";
    }
    assert NormalizedHeader("Notes") == "notes" by {
      NormalizedWord('N', "otes");
      assert "Notes" == ['N'] + "otes";
    }
    assert NormalizedHeader("Account") == "account" by {
      NormalizedWord('A', "ccount");
      assert "Account" == ['A'] + "ccount";
    }
    assert NormalizedHeader("Comments") == "comments" by {
      NormalizedWord('C', "omments");
      assert "Comments" == ['C'] + "omments";
    }
  }

  lemma {:induction false} StatusColumnNames()
    ensures NormalizedHeader("Favorite status") == "favoritestatus"
    ensures NormalizedHeader("Archived status") == "archivedstatus"
  {
    hide NormalizedHeader;
    assert NormalizedHeader("Favorite status") == "favoritestatus" by {
      NormalizedWords('F', "avorite", ' ', 's', "tatus");
      assert "Favorite status" == ['F'] + "avorite" + [' '] + (['s'] + "tatus");
    }
    assert NormalizedHeader("Archived status") == "archivedstatus" by {
      NormalizedWords('A', "rchived", ' ', 's', "tatus");
      assert "Archived status" == ['A'] + "rchived" + [' '] + (['s'] + "tatus");
    }
  }

  lemma {:induction false} KeePassColumnNames()
    ensures NormalizedHeader("Login Name") == "loginname"
    ensures NormalizedHeader("Web Site") == "website"
  {
    hide NormalizedHeader;
    assert NormalizedHeader("Login Name") == "loginname" by {
      NormalizedWords('L', "ogin", ' ', 'N', "ame");
      assert "Login Name" == ['L'] + "ogin" + [' '] + (['N'] + "ame");
    }
    assert NormalizedHeader("Web Site") == "website" by {
      NormalizedWords('W', "eb", ' ', 'S', "ite");
      assert "Web Site" == ['W'] + "eb" + [' '] + (['S'] + "ite");
    }
  }

  /** Each exported column is found again under its normalised name. */
  lemma {:induction false} ColumnNames(flavor: Flavor)
    ensures forall i :: 0 <= i < |Names(flavor)| ==> NormalizedHeader(Columns(flavor)[i]) == Names(flavor)[i]
  {
    hide NormalizedHeader;
    TextColumnNames();
    OtherColumnNames();
    OneTimePasswordName();
    StatusColumnNames();
    KeePassColumnNames();
  }

  ghost predicate Distinct(names: seq<string>) {
    forall i, j :: 0 <= i < j < |names| ==> names[i] != names[j]
  }

  lemma {:induction false} DistinctNames(flavor: Flavor)
    ensures Distinct(Names(flavor))
  {
  }

  lemma {:induction false} IndexNames(headers: seq<string>, names: seq<string>)
    requires |headers| == |names| && Distinct(names)
    requires forall i :: 0 <= i < |names| ==> NormalizedHeader(headers[i]) == names[i]
    ensures forall i :: 0 <= i < |names| ==> names[i] in Index(headers) && Index(headers)[names[i]] == i
    ensures forall name :: name in Index(headers) ==> name in names
    decreases |names|
  {
    hide NormalizedHeader;
    if names != [] {
      IndexNames(headers[..|headers| - 1], names[..|names| - 1]);
    }
  }

  lemma {:induction false} AbsentFromOnePassword()
    ensures forall name <- ["account", "url", "loginname", "one-timepassword", "otpauth",
                            "favorite", "archived", "comments"] :: name !in Names(OnePassword)
  {
  }

  lemma {:induction false} AbsentFromKeePass()
    ensures forall name <- ["title", "url", "username", "one-timepassword", "onetimepassword", "otpauth",
                            "favoritestatus", "favorite", "archivedstatus", "archived", "notes"] ::
              name !in Names(KeePass)
  {
  }

  lemma {:induction false} KnownNames(flavor: Flavor)
    ensures forall i :: 0 <= i < |Names(flavor)| ==> Names(flavor)[i] in Known(flavor)
  {
  }

  lemma {:induction false} PresentOnce(flavor: Flavor, index: map<string, nat>, aliases: seq<string>)
    requires forall i, j :: 0 <= i < j < |aliases| ==> aliases[i] !in index || aliases[j] !in index
    ensures Present(flavor, index, aliases) <= 1
    ensures (forall i :: 0 <= i < |aliases| ==> aliases[i] !in index) ==> Present(flavor, index, aliases) == 0
  {
    hide Known;
    if aliases != [] {
      PresentOnce(flavor, index, aliases[1..]);
    }
  }

  ghost predicate IndexOf(flavor: Flavor, index: map<string, nat>) {
    && (forall i :: 0 <= i < |Names(flavor)| ==> Names(flavor)[i] in index && index[Names(flavor)[i]] == i)
    && (forall name :: name in index ==> name in Names(flavor))
  }

  lemma {:induction false} Unambiguous(flavor: Flavor, index: map<string, nat>)
    requires IndexOf(flavor, index)
    ensures !IsAmbiguous(flavor, index)
  {
    hide Present, Names;
    AbsentFromOnePassword();
    AbsentFromKeePass();
    PresentOnce(flavor, index, ["title", "account"]);
    PresentOnce(flavor, index, ["website", "url"]);
    PresentOnce(flavor, index, ["username", "loginname"]);
    PresentOnce(flavor, index, ["one-timepassword", "onetimepassword", "otpauth"]);
    PresentOnce(flavor, index, ["favoritestatus", "favorite"]);
    PresentOnce(flavor, index, ["archivedstatus", "archived"]);
    PresentOnce(flavor, index, ["comments", "notes"]);
  }

  lemma {:induction false} HeaderAccepted(flavor: Flavor)
    ensures !HasDuplicates(Columns(flavor))
    ensures IndexOf(flavor, Index(Columns(flavor)))
    ensures !IsAmbiguous(flavor, Index(Columns(flavor)))
  {
    hide NormalizedHeader, Columns, Names, Index, IsAmbiguous;
    ColumnNames(flavor);
    DistinctNames(flavor);
    IndexNames(Columns(flavor), Names(flavor));
    Unambiguous(flavor, Index(Columns(flavor)));
  }

  lemma {:induction false} NoExtraFields(flavor: Flavor, headers: seq<string>, row: seq<string>)
    requires forall i :: 0 <= i < |headers| ==> NormalizedHeader(headers[i]) in Known(flavor)
    ensures ExtraFields(flavor, headers, row) == []
    decreases |headers|
  {
    hide NormalizedHeader, Known;
    if headers != [] {
      NoExtraFields(flavor, headers[..|headers| - 1], row);
    }
  }

  // ---- The importer recovers each row ----

  lemma {:induction false} DecodeEncodedRecord(values: seq<string>)
    ensures DecodeRecord(EncodeRecord(values)) == Some(values)
  {
    hide Encode, Decode;
    var record := EncodeRecord(values);
    if values != [] {
      assert record[1..] == EncodeRecord(values[1..]);
      DecodeEncodedRecord(values[1..]);
      DecodeEncode(values[0]);
      assert [values[0]] + values[1..] == values;
    }
  }

  /** Columns are looked up by the first name that is present. */
  lemma {:induction false} ValueAt(row: seq<string>, index: map<string, nat>, names: seq<string>, k: nat)
    requires k < |names| && names[k] in index && index[names[k]] < |row|
    requires forall i :: 0 <= i < |names| && i != k ==> names[i] !in index
    ensures Value(row, index, names) == NonEmpty(row[index[names[k]]])
    decreases |names|
  {
    if k == 0 {
      NoValue(row, index, names[1..]);
    } else {
      ValueAt(row, index, names[1..], k - 1);
    }
  }

  lemma {:induction false} NoValue(row: seq<string>, index: map<string, nat>, names: seq<string>)
    requires forall i :: 0 <= i < |names| ==> names[i] !in index
    ensures Value(row, index, names) == None
  {
    if names != [] {
      NoValue(row, index, names[1..]);
    }
  }

  lemma {:induction false} KeepFirstTag(first: string, rest: seq<string>, tag: string)
    requires Trim(first) == tag && tag != ""
    ensures KeepTags([first] + rest) == [tag] + KeepTags(rest)
  {
    hide Trim;
    assert ([first] + rest)[1..] == rest;
  }

  lemma {:induction false} JoinFirst(prefix: string, tags: seq<string>)
    requires |tags| > 1
    ensures prefix + Join(tags, ", ") == prefix + tags[0] + [','] + (" " + Join(tags[1..], ", "))
  {
    hide Join;
    assert Join(tags, ", ") == tags[0] + ", " + Join(tags[1..], ", ") by { JoinUnfolds(tags); }
  }

  lemma {:induction false} JoinUnfolds(tags: seq<string>)
    requires |tags| > 1
    ensures Join(tags, ", ") == tags[0] + ", " + Join(tags[1..], ", ")
  {
  }

  lemma {:induction false} PrefixTrimmed(prefix: string, tag: string)
    requires prefix in {"", " "} && TagFits(tag)
    ensures Trim(prefix + tag) == tag && ',' !in prefix + tag
  {
    hide Trim;
    if prefix == "" {
      assert prefix + tag == tag;
    } else {
      TrimLeadingSpace(tag);
    }
  }

  /** Joining tags and splitting them again is the identity on tags the export accepts. */
  lemma {:induction false} TagsSurvive(prefix: string, tags: seq<string>)
    requires tags != [] && prefix in {"", " "}
    requires forall i :: 0 <= i < |tags| ==> TagFits(tags[i])
    ensures KeepTags(Split(prefix + Join(tags, ", "), ',')) == tags
    decreases |tags|
  {
    var first := prefix + tags[0];
    PrefixTrimmed(prefix, tags[0]);
    assert tags[0] != "";
    if |tags| == 1 {
      hide Trim, Split, TagFits;
      SplitWhole(first, ',');
      KeepFirstTag(first, [], tags[0]);
      assert [first] + [] == [first];
    } else {
      hide Trim, Split, Join, KeepTags, TagFits;
      var rest := " " + Join(tags[1..], ", ");
      JoinFirst(prefix, tags);
      SplitAtFirst(first, rest, ',');
      TagsSurvive(" ", tags[1..]);
      KeepFirstTag(first, Split(rest, ','), tags[0]);
    }
  }

  lemma {:induction false} ParsedTags(tags: seq<string>)
    requires forall i :: 0 <= i < |tags| ==> TagFits(tags[i])
    ensures ParseTags(NonEmpty(Join(tags, ", "))) == tags
  {
    hide Trim, KeepTags, Split;
    if tags != [] {
      TagsSurvive("", tags);
      assert "" + Join(tags, ", ") == Join(tags, ", ");
    }
  }

  lemma {:induction false} ParsedFlag(b: bool)
    ensures ParseFlag(NonEmpty(Flag(b))) == b
  {
    TrimsToSelf(Flag(b));
    hide Trim;
    assert AsciiLower("true") == "true";
    assert AsciiLower("false") == "false";
  }

  /** What a CSV file keeps of a record it accepts: there is no column for the
      kind, and an empty text is the same as no text. */
  function Kept(s: LegacySecret): LegacySecret {
    s.(kind := Login,
       username := NonEmpty(OrEmpty(s.username)),
       password := NonEmpty(OrEmpty(s.password)),
       totp := NonEmpty(OrEmpty(s.totp)),
       notes := NonEmpty(OrEmpty(s.notes)),
       urls := Optional(NonEmpty(FirstOrEmpty(s.urls))))
  }

  lemma {:induction false} OnePasswordLookups(index: map<string, nat>, row: seq<string>)
    requires IndexOf(OnePassword, index) && |row| == 9
    ensures Value(row, index, ["title"]) == NonEmpty(row[0])
    ensures Value(row, index, ["website", "url"]) == NonEmpty(row[1])
    ensures Value(row, index, ["username"]) == NonEmpty(row[2])
    ensures Value(row, index, ["password"]) == NonEmpty(row[3])
    ensures Value(row, index, ["one-timepassword", "onetimepassword", "otpauth"]) == NonEmpty(row[4])
    ensures Value(row, index, ["favoritestatus", "favorite"]) == NonEmpty(row[5])
    ensures Value(row, index, ["archivedstatus", "archived"]) == NonEmpty(row[6])
    ensures Value(row, index, ["tags"]) == NonEmpty(row[7])
    ensures Value(row, index, ["notes"]) == NonEmpty(row[8])
  {
    OnePasswordPositions(index);
    hide Value, Names, IndexOf, NonEmpty;
    ValueAt(row, index, ["title"], 0);
    ValueAt(row, index, ["website", "url"], 0);
    ValueAt(row, index, ["username"], 0);
    ValueAt(row, index, ["password"], 0);
    ValueAt(row, index, ["one-timepassword", "onetimepassword", "otpauth"], 1);
    ValueAt(row, index, ["favoritestatus", "favorite"], 0);
    ValueAt(row, index, ["archivedstatus", "archived"], 0);
    ValueAt(row, index, ["tags"], 0);
    ValueAt(row, index, ["notes"], 0);
  }

  lemma {:induction false} OnePasswordPositions(index: map<string, nat>)
    requires IndexOf(OnePassword, index)
    ensures "title" in index && index["title"] == 0
    ensures "website" in index && index["website"] == 1
    ensures "username" in index && index["username"] == 2
    ensures "password" in index && index["password"] == 3
    ensures "onetimepassword" in index && index["onetimepassword"] == 4
    ensures "favoritestatus" in index && index["favoritestatus"] == 5
    ensures "archivedstatus" in index && index["archivedstatus"] == 6
    ensures "tags" in index && index["tags"] == 7
    ensures "notes" in index && index["notes"] == 8
    ensures forall name <- ["url", "one-timepassword", "otpauth", "favorite", "archived"] :: name !in index
  {
    AbsentFromOnePassword();
    var names := Names(OnePassword);
    assert names[0] == "title" && names[1] == "website" && names[2] == "username" && names[3] == "password";
    assert names[4] == "onetimepassword" && names[5] == "favoritestatus" && names[6] == "archivedstatus";
    assert names[7] == "tags" && names[8] == "notes";
    hide Names;
  }

  lemma {:induction false} KeePassLookups(index: map<string, nat>, row: seq<string>)
    requires IndexOf(KeePass, index) && |row| == 5
    ensures Value(row, index, ["account", "title"]) == NonEmpty(row[0])
    ensures Value(row, index, ["loginname", "username"]) == NonEmpty(row[1])
    ensures Value(row, index, ["password"]) == NonEmpty(row[2])
    ensures Value(row, index, ["website", "url"]) == NonEmpty(row[3])
    ensures Value(row, index, ["comments", "notes"]) == NonEmpty(row[4])
  {
    AbsentFromKeePass();
    var names := Names(KeePass);
    assert names[0] == "account" && names[1] == "loginname" && names[2] == "password";
    assert names[3] == "website" && names[4] == "comments";
    hide Value, Names, NonEmpty;
    ValueAt(row, index, ["account", "title"], 0);
    ValueAt(row, index, ["loginname", "username"], 0);
    ValueAt(row, index, ["password"], 0);
    ValueAt(row, index, ["website", "url"], 0);
    ValueAt(row, index, ["comments", "notes"], 0);
  }

  lemma {:induction false} AccountKept(flavor: Flavor, index: map<string, nat>, s: LegacySecret)
    requires IndexOf(flavor, index) && !IsLossy(flavor, s)
    ensures Value(Values(flavor, s), index, TitleNames(flavor)) == NonEmpty(s.title)
    ensures Account(flavor, index, s.title, Values(flavor, s)) == Kept(s)
  {
    hide Value, Names, IndexOf, NonEmpty, ParseTags, ParseFlag, Flag, Join, TagFits;
    var row := Values(flavor, s);
    match flavor
    case OnePassword =>
      OnePasswordLookups(index, row);
      ParsedTags(s.tags);
      ParsedFlag(s.favorite);
      ParsedFlag(s.archived);
    case KeePass =>
      KeePassLookups(index, row);
      assert NonEmpty(OrEmpty(s.totp)) == s.totp by { EmptyIsNone(); }
  }

  lemma {:induction false} EmptyIsNone()
    ensures NonEmpty(OrEmpty(None)) == None
  {
  }

  lemma {:induction false} RowKept(flavor: Flavor, s: LegacySecret)
    requires !IsLossy(flavor, s)
    ensures ImportRow(flavor, Columns(flavor), EncodeRecord(Values(flavor, s)))
            == if s.title == "" then Failure(MissingTitle) else Success(Kept(s))
  {
    hide Columns, Values, IsLossy, Account, Kept, DecodeRecord, EncodeRecord, Known, Names, NormalizedHeader,
         ExtraFields, Value, IndexOf;
    var row := Values(flavor, s);
    DecodeEncodedRecord(row);
    HeaderAccepted(flavor);
    AccountKept(flavor, Index(Columns(flavor)), s);
    ColumnNames(flavor);
    KnownNames(flavor);
    NoExtraFields(flavor, Columns(flavor), row);
    KeptHasNoCustomFields(flavor, s);
  }

  lemma {:induction false} KeptHasNoCustomFields(flavor: Flavor, s: LegacySecret)
    requires !IsLossy(flavor, s)
    ensures Kept(s).(customFields := []) == Kept(s)
  {
  }

  function AllKept(secrets: seq<LegacySecret>): (r: seq<LegacySecret>)
    ensures |r| == |secrets|
    ensures forall i :: 0 <= i < |r| ==> r[i] == Kept(secrets[i])
  {
    seq(|secrets|, i requires 0 <= i < |secrets| => Kept(secrets[i]))
  }

  predicate Titled(secrets: seq<LegacySecret>) {
    forall i :: 0 <= i < |secrets| ==> secrets[i].title != ""
  }

  lemma {:induction false} RowsKept(flavor: Flavor, secrets: seq<LegacySecret>)
    requires Exportable(flavor, secrets)
    ensures Titled(secrets) && |secrets| <= MAX_ITEMS ==>
              ImportRows(flavor, Columns(flavor), Rows(flavor, secrets)) == Success(AllKept(secrets))
    ensures !(Titled(secrets) && |secrets| <= MAX_ITEMS) ==>
              ImportRows(flavor, Columns(flavor), Rows(flavor, secrets)).Failure?
    decreases |secrets|
  {
    hide Columns, Values, IsLossy, ImportRow, Kept, EncodeRecord;
    if secrets != [] {
      var init, last := secrets[..|secrets| - 1], secrets[|secrets| - 1];
      RowsKept(flavor, init);
      RowKept(flavor, last);
      var rows := Rows(flavor, secrets);
      assert rows[..|rows| - 1] == Rows(flavor, init) && rows[|rows| - 1] == EncodeRecord(Values(flavor, last));
      assert AllKept(secrets) == AllKept(init) + [Kept(last)];
      TitledSnoc(secrets);
      RowsSnoc(flavor, Columns(flavor), rows);
      hide Rows, AllKept, Titled, Exportable, ImportRows;
    }
  }

  lemma {:induction false} RowsSnoc(flavor: Flavor, headers: seq<string>, rows: seq<Csv.Record>)
    requires rows != []
    ensures var all, before, last := ImportRows(flavor, headers, rows),
                                     ImportRows(flavor, headers, rows[..|rows| - 1]),
                                     ImportRow(flavor, headers, rows[|rows| - 1]);
            && (all.Success? <==> before.Success? && last.Success? && |rows| <= MAX_ITEMS)
            && (all.Success? ==> all.value == before.value + [last.value])
  {
    hide ImportRow;
  }

  lemma {:induction false} TitledSnoc(secrets: seq<LegacySecret>)
    requires secrets != []
    ensures Titled(secrets) <==> Titled(secrets[..|secrets| - 1]) && secrets[|secrets| - 1].title != ""
  {
  }

  /** Importing an exported file. Every list of records the export accepts comes
      back, in order, as what a CSV file keeps of it; a file that is too large, a
      list that is too long or a record without title is refused. */
  lemma {:induction false} ImportAfterExport(flavor: Flavor, secrets: seq<LegacySecret>)
    requires Exportable(flavor, secrets)
    ensures var bytes := ExportedCsv(flavor, secrets);
            if |bytes| <= MAX_FILE_BYTES && |secrets| <= MAX_ITEMS && Titled(secrets) then
              Imported(flavor, bytes) == Success(AllKept(secrets))
            else
              Imported(flavor, bytes).Failure?
  {
    hide Columns, Values, IsLossy, ImportRows, Kept, EncodeRecord, DecodeRecord, Csv.Read, Index, IsAmbiguous,
         HasDuplicates, ExportedCsv, ImportDialect, AllKept, Titled, Exportable;
    var bytes := ExportedCsv(flavor, secrets);
    ReadExported(flavor, secrets);
    DecodeEncodedRecord(Columns(flavor));
    HeaderAccepted(flavor);
    RowsKept(flavor, secrets);
    assert Records(flavor, secrets)[1..] == Rows(flavor, secrets);
  }

  /** Records that a CSV file holds completely. */
  predicate Survives(s: LegacySecret) {
    && s.kind == Login
    && s.title != ""
    && s.username != Some("")
    && s.password != Some("")
    && s.totp != Some("")
    && s.notes != Some("")
    && s.urls != [""]
  }

  lemma {:induction false} KeptExactly(flavor: Flavor, s: LegacySecret)
    requires !IsLossy(flavor, s) && s.title != ""
    ensures Kept(s) == s <==> Survives(s)
  {
    if |s.urls| == 1 { assert s.urls == [s.urls[0]]; }
  }

  /** Exporting a list and importing the file. */
  function ThereAndBack(flavor: Flavor, secrets: seq<LegacySecret>): Result<seq<LegacySecret>, TransferError> {
    match Exported(flavor, secrets)
    case Failure(error) => Failure(error)
    case Success(bytes) => Imported(flavor, bytes)
  }

  /** The round trip is the identity exactly for lists of titled logins without
      empty texts that stay within the two size limits. */
  lemma {:induction false} LosslessExactly(flavor: Flavor, secrets: seq<LegacySecret>)
    ensures ThereAndBack(flavor, secrets) == Success(secrets)
            <==> && Exportable(flavor, secrets)
                 && |ExportedCsv(flavor, secrets)| <= MAX_FILE_BYTES
                 && |secrets| <= MAX_ITEMS
                 && forall i :: 0 <= i < |secrets| ==> Survives(secrets[i])
  {
    if Exportable(flavor, secrets) {
      LosslessIfExported(flavor, secrets);
    }
  }

  lemma {:induction false} LosslessIfExported(flavor: Flavor, secrets: seq<LegacySecret>)
    requires Exportable(flavor, secrets)
    ensures Imported(flavor, ExportedCsv(flavor, secrets)) == Success(secrets)
            <==> && |ExportedCsv(flavor, secrets)| <= MAX_FILE_BYTES
                 && |secrets| <= MAX_ITEMS
                 && forall i :: 0 <= i < |secrets| ==> Survives(secrets[i])
  {
    hide IsLossy, Kept, Imported, ExportedCsv, Survives;
    ImportAfterExport(flavor, secrets);
    if Titled(secrets) {
      forall i | 0 <= i < |secrets|
        ensures Kept(secrets[i]) == secrets[i] <==> Survives(secrets[i])
      {
        KeptExactly(flavor, secrets[i]);
      }
      assert AllKept(secrets) == secrets <==> forall i :: 0 <= i < |secrets| ==> Kept(secrets[i]) == secrets[i];
    } else {
      var i :| 0 <= i < |secrets| && secrets[i].title == "";
      assert !Survives(secrets[i]) by { UntitledFails(secrets[i]); }
    }
  }

  lemma {:induction false} UntitledFails(s: LegacySecret)
    requires s.title == ""
    ensures !Survives(s)
  {
  }

  /** A generic item is accepted for export as a login is. */
  lemma {:induction false} GenericAccepted(flavor: Flavor, s: LegacySecret)
    ensures IsLossy(flavor, s.(kind := Generic)) <==> IsLossy(flavor, s.(kind := Login))
  {
  }

  /** Whatever comes back from a file is a login. */
  lemma {:induction false} GenericBecomesLogin(flavor: Flavor, secrets: seq<LegacySecret>)
    ensures var back := ThereAndBack(flavor, secrets);
            back.Success? ==> |back.value| == |secrets|
                              && forall i :: 0 <= i < |secrets| ==> back.value[i].kind == Login
  {
    hide IsLossy, Imported, ExportedCsv, Titled;
    if Exportable(flavor, secrets) {
      ImportAfterExport(flavor, secrets);
      hide Exportable;
    }
  }
}
