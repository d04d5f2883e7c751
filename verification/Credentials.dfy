/** Site database names, the credentials file, and the three places that read it back. A Go string is a
    sequence of bytes; here each char stands for one byte. */
module Credentials {
  import opened FileSystem
  import opened Text
  import opened LineScanner

  // ------------------------------------------------------------------------------ names

  predicate IsAlphanumeric(c: char) {
    'a' <= c <= 'z' || 'A' <= c <= 'Z' || '0' <= c <= '9'
  }

  function Safe(c: char): char {
    if IsAlphanumeric(c) then c else '_'
  }

  function Min(a: nat, b: nat): nat {
    if a < b then a else b
  }

  /** The name of a site's database and of its user. */
  function DbName(siteID: string): string {
    "db_" + seq(Min(|siteID|, 16), i requires 0 <= i < |siteID| => Safe(siteID[i]))
  }

  /** sanitizeID: every byte is mapped, then the result is cut. Hyphens are not dropped first. */
  method SanitizeID(siteID: string) returns (name: string)
    ensures name == DbName(siteID)
    ensures |name| == 3 + Min(|siteID|, 16) && name[..3] == "db_"
    ensures forall i | 0 <= i < Min(|siteID|, 16) ::
              name[3 + i] == if 'a' <= siteID[i] <= 'z' || 'A' <= siteID[i] <= 'Z' || '0' <= siteID[i] <= '9'
                             then siteID[i] else '_'
  {
    var out := "";
    for i := 0 to |siteID|
      invariant |out| == i && forall k | 0 <= k < i :: out[k] == Safe(siteID[k])
    {
      var c := siteID[i];
      if IsAlphanumeric(c) {
        out := out + [c];
      } else {
        out := out + ['_'];
      }
    }
    if |out| > 16 {
      out := out[..16];
    }
    name := "db_" + out;
  }

  /** A name can be put into a statement, a file or a line as it is. */
  lemma DbNameIsPlain(siteID: string)
    ensures 3 <= |DbName(siteID)| <= 19
    ensures forall c <- DbName(siteID) :: IsAlphanumeric(c) || c == '_'
  {
    var tail := seq(Min(|siteID|, 16), i requires 0 <= i < |siteID| => Safe(siteID[i]));
    forall c | c in DbName(siteID) ensures IsAlphanumeric(c) || c == '_' {
      assert c in "db_" || c in tail;
    }
  }

  /** The name by which migration looks for the database: the site ID as it is, cut to the same length. */
  function MigrationName(siteID: string): string {
    var name := "db_" + siteID;
    if |name| > 19 then name[..19] else name
  }

  /** The two names agree exactly when the part that survives the cut needs no replacing. For a site ID
      that is a UUID they never do: its ninth character is a hyphen. */
  lemma MigrationFindsDatabaseExactlyWhenPlain(siteID: string)
    ensures MigrationName(siteID) == DbName(siteID) <==>
            forall i | 0 <= i < Min(|siteID|, 16) :: IsAlphanumeric(siteID[i]) || siteID[i] == '_'
    ensures |siteID| > 8 && siteID[8] == '-' ==> MigrationName(siteID) != DbName(siteID)
  {
    var n := Min(|siteID|, 16);
    var cut := siteID[..n];
    var safe := seq(n, i requires 0 <= i < |siteID| => Safe(siteID[i]));
    assert MigrationName(siteID) == "db_" + cut;
    assert "db_" + cut == "db_" + safe <==> cut == safe by {
      if "db_" + cut == "db_" + safe {
        assert ("db_" + cut)[3..] == cut && ("db_" + safe)[3..] == safe;
      }
    }
    if cut == safe {
      forall i | 0 <= i < n ensures Safe(siteID[i]) == siteID[i] {
        assert cut[i] == safe[i];
      }
    }
  }

  // ------------------------------------------------------------------------------ the file

  /** The line up to the site ID. */
  const HEADER := "; DNSFox v2 \U{E2}\U{80}\U{94} auto-generated " + "credentials for site "
  const NOTE := "; Do not edit manually \U{E2}\U{80}\U{94} managed by Warden"

  datatype Pair = Pair(key: string, value: string)

  function Settings(name: string, password: string): seq<Pair> {
    [Pair("DB_NAME", name), Pair("DB_USER", name), Pair("DB_PASS", password),
     Pair("DB_HOST", "127.0.0.1"), Pair("DB_PORT", "3307")]
  }

  function Printed(pairs: seq<Pair>): seq<string> {
    if pairs == [] then [] else Printed(pairs[..|pairs| - 1]) + [Line(pairs[|pairs| - 1])]
  }

  function Line(p: Pair): string {
    p.key + "=" + p.value
  }

  /** Each line followed by a newline. */
  function Unlines(lines: seq<string>): string {
    if lines == [] then "" else lines[0] + "\n" + Unlines(lines[1..])
  }

  /** The credentials file as CreateSiteDatabase prints it. */
  function FileText(siteID: string, password: string): string {
    HEADER + siteID + "\n" + Unlines([NOTE] + Printed(Settings(DbName(siteID), password)))
  }

  /** What generatePassword returns. */
  predicate IsPassword(p: string) {
    |p| == 32 && forall i | 0 <= i < |p| :: '0' <= p[i] <= '9' || 'a' <= p[i] <= 'f'
  }

  // ------------------------------------------------------------------------------ reading

  /** strings.SplitN(line, "=", 2), when it has two parts. */
  function CutAtEquals(line: string): Option<Pair> {
    if line == "" then None
    else if line[0] == '=' then Some(Pair("", line[1..]))
    else
      match CutAtEquals(line[1..])
      case None => None
      case Some(p) => Some(Pair([line[0]] + p.key, p.value))
  }

  /** A line that sets something: not empty, not a comment, and with an equals sign. */
  function Setting(line: string): Option<Pair> {
    var t := TrimSpace(line);
    if t == "" || t[0] == ';' then None else CutAtEquals(t)
  }

  function Put(m: map<string, string>, line: string): map<string, string> {
    match Setting(line)
    case None => m
    case Some(p) => m[TrimSpace(p.key) := TrimSpace(p.value)]
  }

  /** The map the WordPress and Node.js readers fill: keys and values trimmed, later lines win. */
  function Values(lines: seq<string>): map<string, string> {
    if lines == [] then map[] else Put(Values(lines[..|lines| - 1]), lines[|lines| - 1])
  }

  datatype Creds = Creds(name: string, user: string, pass: string, host: string, port: string)

  const NONE := Creds("", "", "", "", "")

  function Set(c: Creds, p: Pair): Creds {
    if p.key == "DB_NAME" then c.(name := p.value)
    else if p.key == "DB_USER" then c.(user := p.value)
    else if p.key == "DB_PASS" then c.(pass := p.value)
    else if p.key == "DB_HOST" then c.(host := p.value)
    else if p.key == "DB_PORT" then c.(port := p.value)
    else c
  }

  /** The struct the clone reader fills: keys and values as they stand. */
  function Record(lines: seq<string>): Creds {
    if lines == [] then NONE
    else
      var c := Record(lines[..|lines| - 1]);
      match Setting(lines[|lines| - 1])
      case None => c
      case Some(p) => Set(c, p)
  }

  function Get(m: map<string, string>, k: string): string {
    if k in m then m[k] else ""
  }

  method ReadLine(vals: map<string, string>, line: string) returns (vals': map<string, string>)
    ensures vals' == Put(vals, line)
  {
    vals' := vals;
    var t := TrimSpace(line);
    if t == "" || t[0] == ';' {
      return;
    }
    var parts := CutAtEquals(t);
    if parts.Some? {
      vals' := vals[TrimSpace(parts.value.key) := TrimSpace(parts.value.value)];
    }
  }

  /** The loop both map readers share, up to the check of the scanner's error. */
  method ReadValues(text: string) returns (ok: bool, vals: map<string, string>)
    ensures vals == Values(Lines(text)) && (ok <==> Fits(text))
  {
    vals := map[];
    ghost var done: seq<string> := [];
    var scanner := new Scanner(text);
    var more, line := scanner.Scan();
    while more
      invariant more ==> scanner.Valid() && scanner.lines == done + [line]
      invariant !more ==> done == Lines(text) && (scanner.failed <==> !Fits(text))
      invariant scanner.all == text && vals == Values(done)
      decreases more, |scanner.rest|
    {
      assert (done + [line])[..|done|] == done;
      vals := ReadLine(vals, line);
      done := done + [line];
      more, line := scanner.Scan();
    }
    ok := !scanner.failed;
  }

  /** parseDBCreds of the WordPress provisioner: a missing value is an error. */
  method ReadForWordPress(text: string) returns (ok: bool, name: string, user: string, pass: string)
    ensures var m := Values(Lines(text));
            && (ok <==> Fits(text) && Get(m, "DB_NAME") != "" && Get(m, "DB_USER") != "" && Get(m, "DB_PASS") != "")
            && (ok ==> name == Get(m, "DB_NAME") && user == Get(m, "DB_USER") && pass == Get(m, "DB_PASS"))
            && (!ok ==> name == user == pass == "")
  {
    var fits, vals := ReadValues(text);
    if !fits {
      return false, "", "", "";
    }
    name, user, pass := Get(vals, "DB_NAME"), Get(vals, "DB_USER"), Get(vals, "DB_PASS");
    if name == "" || user == "" || pass == "" {
      return false, "", "", "";
    }
    return true, name, user, pass;
  }

  /** parseDBCreds of the Node.js provisioner: only the scanner can fail. */
  method ReadForNode(text: string) returns (ok: bool, name: string, user: string, pass: string)
    ensures var m := Values(Lines(text));
            && (ok <==> Fits(text))
            && name == Get(m, "DB_NAME") && user == Get(m, "DB_USER") && pass == Get(m, "DB_PASS")
  {
    var fits, vals := ReadValues(text);
    return fits, Get(vals, "DB_NAME"), Get(vals, "DB_USER"), Get(vals, "DB_PASS");
  }

  /** What the clone reader makes of the struct it has filled. */
  function Defaulted(c: Creds): Creds {
    c.(host := if c.host == "" then "127.0.0.1" else c.host, port := if c.port == "" then "3307" else c.port)
  }

  /** readDBCredentials of the clone handler. It never asks the scanner for its error, so a line that is too
      long ends the file for it. */
  method ReadForClone(text: string) returns (ok: bool, c: Creds)
    ensures var r := Record(Lines(text));
            && (ok <==> r.name != "" && r.user != "")
            && (ok ==> c == Defaulted(r) && c.name == r.name && c.user == r.user && c.pass == r.pass)
            && (ok ==> c.host == (if r.host == "" then "127.0.0.1" else r.host))
            && (ok ==> c.port == (if r.port == "" then "3307" else r.port))
  {
    c := NONE;
    ghost var done: seq<string> := [];
    var scanner := new Scanner(text);
    var more, line := scanner.Scan();
    while more
      invariant more ==> scanner.Valid() && scanner.lines == done + [line]
      invariant !more ==> done == Lines(text)
      invariant scanner.all == text && c == Record(done)
      decreases more, |scanner.rest|
    {
      assert (done + [line])[..|done|] == done;
      var t := TrimSpace(line);
      if !(t == "" || t[0] == ';') {
        var parts := CutAtEquals(t);
        if parts.Some? {
          c := Set(c, parts.value);
        }
      }
      done := done + [line];
      more, line := scanner.Scan();
    }
    if c.name == "" || c.user == "" {
      return false, c;
    }
    if c.host == "" {
      c := c.(host := "127.0.0.1");
    }
    if c.port == "" {
      c := c.(port := "3307");
    }
    return true, c;
  }

  // ------------------------------------------------------------------------------ reading back what was written

  lemma {:induction false} CutAtEqualsAfterKey(key: string, value: string)
    requires '=' !in key
    ensures CutAtEquals(key + "=" + value) == Some(Pair(key, value))
  {
    var line := key + "=" + value;
    if key == "" {
      assert line[1..] == value;
    } else {
      assert line[1..] == key[1..] + "=" + value;
      CutAtEqualsAfterKey(key[1..], value);
      assert [key[0]] + key[1..] == key;
    }
  }

  /** A key or value that survives trimming and lies on one line. */
  predicate Plain(s: string) {
    s != "" && forall i | 0 <= i < |s| :: !IsSpace(s[i])
  }

  /** A pair whose printed form reads back as that pair. */
  predicate Printable(p: Pair) {
    Plain(p.key) && Plain(p.value) && '=' !in p.key && p.key[0] != ';'
  }

  lemma PrintableReadsBack(p: Pair)
    requires Printable(p)
    ensures Setting(Line(p)) == Some(p)
    ensures TrimSpace(p.key) == p.key && TrimSpace(p.value) == p.value
  {
    var line := p.key + "=" + p.value;
    assert line[0] == p.key[0] && line[|line| - 1] == p.value[|p.value| - 1];
    TrimSpaceFixesExactlyTrimmed(line);
    CutAtEqualsAfterKey(p.key, p.value);
    TrimSpaceFixesExactlyTrimmed(p.key);
    TrimSpaceFixesExactlyTrimmed(p.value);
  }

  lemma {:induction false} KeyUpToEquals(key: string, b: string)
    requires '=' !in key && Blank(b)
    ensures '=' !in key + b
  {
  }

  /** A setting with white space around it, its key and its value sets that key to that value. */
  lemma SettingReadsTrimmed(m: map<string, string>, a: string, key: string, b: string, c: string, value: string,
                            e: string)
    requires Blank(a) && Blank(b) && Blank(c) && Blank(e)
    requires Trimmed(key) && key != "" && '=' !in key && key[0] != ';' && Trimmed(value) && value != ""
    ensures Put(m, a + (key + b + "=" + (c + value)) + e) == m[key := value]
  {
    var text, none := key + b + "=" + (c + value), "";
    assert text[0] == key[0] && text[|text| - 1] == value[|value| - 1];
    TrimSpacePadded(a, text, e);
    KeyUpToEquals(key, b);
    CutAtEqualsAfterKey(key + b, c + value);
    TrimSpacePadded(none, key, b);
    TrimSpacePadded(c, value, none);
    assert none + key + b == key + b && c + value + none == c + value;
  }

  /** Assigning some pairs in order, to a map or to the struct. */
  function PutAll(m: map<string, string>, pairs: seq<Pair>): map<string, string> {
    if pairs == [] then m
    else
      var p := pairs[|pairs| - 1];
      PutAll(m, pairs[..|pairs| - 1])[p.key := p.value]
  }

  function SetAll(c: Creds, pairs: seq<Pair>): Creds {
    if pairs == [] then c else Set(SetAll(c, pairs[..|pairs| - 1]), pairs[|pairs| - 1])
  }

  lemma LineReadsBack(lines: seq<string>, p: Pair)
    requires Printable(p)
    ensures Values(lines + [Line(p)]) == Values(lines)[p.key := p.value]
    ensures Record(lines + [Line(p)]) == Set(Record(lines), p)
  {
    assert (lines + [Line(p)])[..|lines|] == lines;
    PrintableReadsBack(p);
  }

  lemma {:induction false} PrintedReadsBack(before: seq<string>, pairs: seq<Pair>)
    requires forall i | 0 <= i < |pairs| :: Printable(pairs[i])
    ensures Values(before + Printed(pairs)) == PutAll(Values(before), pairs)
    ensures Record(before + Printed(pairs)) == SetAll(Record(before), pairs)
    decreases |pairs|
  {
    if pairs == [] {
      assert before + [] == before;
    } else {
      var n := |pairs| - 1;
      var init, p := Printed(pairs[..n]), pairs[n];
      PrintedReadsBack(before, pairs[..n]);
      LineReadsBack(before + init, p);
      Associate(before, init, Line(p));
    }
  }

  lemma Associate(a: seq<string>, b: seq<string>, x: string)
    ensures a + (b + [x]) == (a + b) + [x]
  {
  }

  /** Whatever was read before them, the five settings at the end of the file decide. */
  lemma SettingsDecide(m: map<string, string>, c: Creds, name: string, password: string)
    ensures var m' := PutAll(m, Settings(name, password));
            Get(m', "DB_NAME") == Get(m', "DB_USER") == name && Get(m', "DB_PASS") == password
    ensures SetAll(c, Settings(name, password)) == Creds(name, name, password, "127.0.0.1", "3307")
  {
    var s := Settings(name, password);
    assert s[..4][..3] == s[..3] && s[..3][..2] == s[..2] && s[..2][..1] == s[..1] && s[..1][..0] == [];
    assert PutAll(m, s[..1]) == m["DB_NAME" := name];
    assert SetAll(c, s[..1]) == Set(c, s[0]);
    assert PutAll(m, s[..3]) == m["DB_NAME" := name]["DB_USER" := name]["DB_PASS" := password];
    assert SetAll(c, s[..3]) == Creds(name, name, password, c.host, c.port);
  }

  lemma DbNamePlain(siteID: string)
    ensures Plain(DbName(siteID))
  {
    var name := DbName(siteID);
    DbNameIsPlain(siteID);
    forall i | 0 <= i < |name| ensures !IsSpace(name[i]) {
      assert name[i] in name;
    }
  }

  lemma SettingsPrintable(name: string, password: string)
    requires Plain(name) && Plain(password)
    ensures forall i | 0 <= i < 5 :: Printable(Settings(name, password)[i])
  {
  }

  // ------------------------------------------------------------------------------ the file's lines

  predicate OneLine(line: string) {
    '\n' !in line && |line| < MAX_TOKEN && Stripped(line) == line
  }

  lemma {:induction false} LinesOfUnlines(lines: seq<string>)
    requires forall i | 0 <= i < |lines| :: OneLine(lines[i])
    ensures Lines(Unlines(lines)) == lines && Fits(Unlines(lines))
  {
    if lines != [] {
      LinesOfUnlines(lines[1..]);
      LinesCons(lines[0], Unlines(lines[1..]));
    }
  }

  lemma PrintableIsOneLine(p: Pair)
    requires Printable(p) && |p.key| + |p.value| < MAX_TOKEN - 1
    ensures OneLine(Line(p))
  {
    var line := Line(p);
    assert line[|line| - 1] == p.value[|p.value| - 1];
    forall i | 0 <= i < |line| ensures line[i] != '\n' {
      assert line[i] == if i < |p.key| then p.key[i] else if i == |p.key| then '=' else p.value[i - |p.key| - 1];
    }
  }

  /** Every line the site ID takes part in is short enough for the scanner. */
  predicate LinesFit(siteID: string) {
    AllFit(Split(HEADER + siteID, '\n'))
  }

  lemma RawOfLine(s: string)
    ensures Raw(s + "\n") == Split(s, '\n') && Terminated(s + "\n")
  {
    var none := "";
    SplitConcat(s, none, '\n');
    assert s + ['\n'] + none == s + "\n";
    EndOfConcat(Split(s, '\n'), [none]);
    assert Split(s, '\n') + [] == Split(s, '\n');
  }

  lemma {:induction false} PrintedAt(pairs: seq<Pair>, i: nat)
    requires i < |pairs|
    ensures |Printed(pairs)| == |pairs| && Printed(pairs)[i] == Line(pairs[i])
  {
    var n := |pairs| - 1;
    if i < n {
      PrintedAt(pairs[..n], i);
    } else if n > 0 {
      PrintedAt(pairs[..n], 0);
    }
  }

  lemma SettingsAreLines(name: string, password: string)
    requires Plain(name) && Plain(password) && |name| < 100 && |password| < 100
    ensures var p := Printed(Settings(name, password));
            |p| == 5 && forall i | 0 <= i < 5 :: OneLine(p[i])
  {
    var s := Settings(name, password);
    SettingsPrintable(name, password);
    PrintedAt(s, 0);
    forall i | 0 <= i < 5 ensures OneLine(Printed(s)[i]) {
      PrintedAt(s, i);
      PrintableIsOneLine(s[i]);
    }
  }

  /** The lines of the file: those the site ID takes part in, the note, and the five settings. */
  lemma LinesOfFile(siteID: string, password: string)
    requires IsPassword(password)
    ensures Fits(FileText(siteID, password)) <==> LinesFit(siteID)
    ensures LinesFit(siteID) ==>
              Lines(FileText(siteID, password))
              == Lines(HEADER + siteID + "\n") + [NOTE] + Printed(Settings(DbName(siteID), password))
  {
    var name, note := DbName(siteID), NOTE;
    var first, p := HEADER + siteID, Printed(Settings(DbName(siteID), password));
    DbNamePlain(siteID);
    DbNameIsPlain(siteID);
    SettingsAreLines(name, password);
    NoteIsLine();
    var ls := [note] + p;
    LinesOfUnlines(ls);
    RawOfLine(first);
    LinesConcat(first + "\n", Unlines(ls));
    assert Lines(first + "\n") + [note] + p == Lines(first + "\n") + ls;
  }

  lemma NoteIsLine()
    ensures OneLine(NOTE)
  {
    var note := NOTE;
    assert note[|note| - 1] == 'n';
  }

  /** Print, then parse: for every site ID, also one with newlines, equals signs or whole settings of its
      own in it, all three readers get back the name, user and password that were printed, as long as no
      line of the site ID is too long for the scanner. */
  lemma CredentialsReadBack(siteID: string, password: string)
    requires IsPassword(password) && LinesFit(siteID)
    ensures var lines, name := Lines(FileText(siteID, password)), DbName(siteID);
            && Fits(FileText(siteID, password))
            && Get(Values(lines), "DB_NAME") == name && Get(Values(lines), "DB_USER") == name
            && Get(Values(lines), "DB_PASS") == password
            && Record(lines) == Creds(name, name, password, "127.0.0.1", "3307")
  {
    var name := DbName(siteID);
    var before := Lines(HEADER + siteID + "\n") + [NOTE];
    LinesOfFile(siteID, password);
    DbNamePlain(siteID);
    SettingsPrintable(name, password);
    PrintedReadsBack(before, Settings(name, password));
    SettingsDecide(Values(before), Record(before), name, password);
  }

  /** And when one is too long, the two map readers report it; so they succeed exactly when every line
      fits. */
  lemma TooLongIsReported(siteID: string, password: string)
    requires IsPassword(password)
    ensures var text := FileText(siteID, password); var m := Values(Lines(text));
            (Fits(text) && Get(m, "DB_NAME") != "" && Get(m, "DB_USER") != ""
                && Get(m, "DB_PASS") != "") <==> LinesFit(siteID)
  {
    LinesOfFile(siteID, password);
    if LinesFit(siteID) {
      CredentialsReadBack(siteID, password);
      DbNameIsPlain(siteID);
    }
  }

  // ------------------------------------------------------------------------------ a line too long for the clone

  lemma {:induction false} DeliveredStops(x: seq<string>, y: seq<string>)
    requires !AllFit(x)
    ensures Delivered(x + y) == Delivered(x)
  {
    assert (x + y)[0] == x[0];
    if |x[0]| < MAX_TOKEN {
      assert (x + y)[1..] == x[1..] + y;
      assert !AllFit(x[1..]) by {
        var i :| 0 <= i < |x| && |x[i]| >= MAX_TOKEN;
        assert x[1..][i - 1] == x[i];
      }
      DeliveredStops(x[1..], y);
    }
  }

  /** The lines the clone reader sees: all of the file, or those of the site ID before the one that is too
      long. */
  lemma LinesBeforeTooLong(siteID: string, password: string)
    requires !LinesFit(siteID)
    ensures Lines(FileText(siteID, password)) == Delivered(Split(HEADER + siteID, '\n'))
  {
    var first := HEADER + siteID;
    var rest := Unlines([NOTE] + Printed(Settings(DbName(siteID), password)));
    RawOfLine(first);
    RawConcat(first + "\n", rest);
    DeliveredStops(Split(first, '\n'), Raw(rest));
  }

  /** The clone reader takes a file as good whose settings it has not seen, since a line of the site ID is
      too long, exactly when the site ID's lines before that one set a name and a user; what it returns
      then is what they set. It returns what was printed exactly when every line of the site ID fits, or
      these lines happen to set just that. */
  lemma CloneIsMisledExactly(siteID: string, password: string)
    requires IsPassword(password)
    ensures var r, own := Record(Lines(FileText(siteID, password))), Record(Delivered(Split(HEADER + siteID, '\n')));
            var printed := Creds(DbName(siteID), DbName(siteID), password, "127.0.0.1", "3307");
            && (r.name != "" && r.user != "" <==> LinesFit(siteID) || (own.name != "" && own.user != ""))
            && (Defaulted(r) == printed <==> LinesFit(siteID) || Defaulted(own) == printed)
            && (!LinesFit(siteID) ==> r == own)
  {
    if LinesFit(siteID) {
      CredentialsReadBack(siteID, password);
      DbNameIsPlain(siteID);
    } else {
      LinesBeforeTooLong(siteID, password);
    }
  }

  lemma HeaderIsLine()
    ensures OneLine(HEADER) && HEADER[0] == ';'
  {
    var header := HEADER;
    assert header[0] == ';' && header[|header| - 1] == ' ';
    assert OneLine(header);
  }

  lemma CommentSetsNothing(line: string)
    requires line != "" && line[0] == ';'
    ensures Setting(line) == None
  {
    assert TrimLeft(line) == line;
    TrimRightShortens(line);
  }

  lemma FourLines(a: string, b: string, c: string, d: string)
    requires '\n' !in a && '\n' !in b && '\n' !in c && '\n' !in d
    ensures Split(a + "\n" + b + "\n" + c + "\n" + d, '\n') == [a, b, c, d]
  {
    SplitConcat(a + "\n" + b + "\n" + c, d, '\n');
    SplitConcat(a + "\n" + b, c, '\n');
    SplitConcat(a, b, '\n');
    SplitWithoutSeparator(a, '\n');
    SplitWithoutSeparator(b, '\n');
    SplitWithoutSeparator(c, '\n');
    SplitWithoutSeparator(d, '\n');
  }

  lemma TwoSettings(header: string, p: Pair, q: Pair)
    requires Setting(header) == None && Printable(p) && Printable(q)
    ensures Record([header, Line(p), Line(q)]) == Set(Set(NONE, p), q)
  {
    var none: seq<string> := [];
    assert [header][..0] == none && [header, Line(p), Line(q)] == [header] + [Line(p)] + [Line(q)];
    LineReadsBack([header], p);
    LineReadsBack([header] + [Line(p)], q);
  }

  /** What follows the header in a site ID of four lines, the last of them too long. */
  function MisleadingID(p: Pair, q: Pair, long: string): string {
    "\n" + Line(p) + "\n" + Line(q) + "\n" + long
  }

  lemma DeliveredFour(a: string, b: string, c: string, d: string)
    requires OneLine(a) && OneLine(b) && OneLine(c) && |d| >= MAX_TOKEN
    ensures Delivered([a, b, c, d]) == [a, b, c]
  {
    assert [a, b, c, d][1..] == [b, c, d] && [b, c, d][1..] == [c, d] && [c, d][1..] == [d];
    assert Delivered([d]) == [];
    assert Delivered([c, d]) == [c] + [];
    assert Delivered([b, c, d]) == [b] + [c];
  }

  lemma AfterHeader(a: string, b: string, c: string, d: string)
    ensures a + ("\n" + b + "\n" + c + "\n" + d) == a + "\n" + b + "\n" + c + "\n" + d
  {
  }

  lemma MisledAfter(header: string, p: Pair, q: Pair, long: string)
    requires OneLine(header) && header != "" && header[0] == ';' && Printable(p) && Printable(q)
    requires |p.key| + |p.value| < 1000 && |q.key| + |q.value| < 1000 && '\n' !in long && |long| >= MAX_TOKEN
    ensures var lines := Split(header + MisleadingID(p, q, long), '\n');
            !AllFit(lines) && Record(Delivered(lines)) == Set(Set(NONE, p), q)
  {
    PrintableIsOneLine(p);
    PrintableIsOneLine(q);
    FourLines(header, Line(p), Line(q), long);
    AfterHeader(header, Line(p), Line(q), long);
    assert |[header, Line(p), Line(q), long][3]| >= MAX_TOKEN;
    DeliveredFour(header, Line(p), Line(q), long);
    CommentSetsNothing(header);
    TwoSettings(header, p, q);
  }

  /** There are such site IDs: for any name and user, one that makes the clone reader return them. */
  lemma LongLineMisleadsClone(name: string, user: string, long: string)
    requires Plain(name) && Plain(user) && |name| < 100 && |user| < 100 && '\n' !in long && |long| >= MAX_TOKEN
    ensures var siteID := MisleadingID(Pair("DB_NAME", name), Pair("DB_USER", user), long);
            !LinesFit(siteID) && Record(Delivered(Split(HEADER + siteID, '\n'))) == Creds(name, user, "", "", "")
  {
    HeaderIsLine();
    MisledAfter(HEADER, Pair("DB_NAME", name), Pair("DB_USER", user), long);
  }
}
