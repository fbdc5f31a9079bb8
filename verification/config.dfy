/**
 * The configuration reader of the pool (`ConnectionPool::loadConfigFile`):
 * `key=value` lines with `#` comments and `[section]` headers, keys matched
 * case-insensitively through a table of aliases, and a final validation of
 * the required fields and of the pool bounds. The file itself is given as
 * the sequence of its lines.
 */
module Config {
  import opened Text

  /** The fields `loadConfigFile` assigns. */
  datatype Settings = Settings(
    ip: string,
    port: int,
    username: string,
    password: string,
    dbname: string,
    initSize: int,
    maxSize: int,
    maxIdleTime: int,
    connectionTimeout: int)

  /**
   * The fields before any line is read. The pool is a function-local static
   * object, so its members start zero-initialised: empty strings and zeros.
   */
  const Unset: Settings := Settings("", 0, "", "", "", 0, 0, 0, 0)

  /** What one line of the file amounts to. */
  datatype Line = Skip | MissingEquals | Entry(key: string, value: string)

  /** The destinations a key can name; aliases name the same destination. */
  datatype Field =
    | Ip | Port | Username | Password | DbName
    | InitSize | MaxSize | MaxIdleTime | ConnectionTimeout
    | Ignored   // recognised, has no effect on the pool
    | Unknown   // only draws a warning

  predicate IsNumeric(f: Field) {
    f.Port? || f.InitSize? || f.MaxSize? || f.MaxIdleTime? || f.ConnectionTimeout?
  }

  /** Settings that pass the final validation. */
  predicate Acceptable(s: Settings) {
    && s.ip != [] && s.username != [] && s.dbname != []
    && 0 < s.initSize <= s.maxSize
  }

  // ------------------------------------------------------------ one line

  /**
   * Cuts an inline comment: everything from the first `#` on, then the
   * blanks left in front of it.
   */
  function CutComment(s: string): (t: string)
    ensures t <= s && '#' !in t
    ensures '#' !in s ==> t == s
  {
    var c := FindChar(s, '#');
    if c < |s| then TrimRight(s[..c], Blanks) else s
  }

  /**
   * Splits a comment-free line at its first `=`: the key is the trimmed,
   * lower-cased text before it, the value the trimmed text after it.
   */
  function SplitEntry(t: string): (r: Line)
    ensures r.Entry? ==> '=' !in r.key && NoUpper(r.key)
    ensures r.Entry? ==> Trimmed(r.key, Blanks) && Trimmed(r.value, Blanks)
    ensures r.Entry? && '#' !in t ==> '#' !in r.key && '#' !in r.value
    ensures r.MissingEquals? <==> t != [] && '=' !in t
  {
    if t == [] then Skip
    else
      var e := FindChar(t, '=');
      if e == |t| then MissingEquals
      else
        var k := Trim(t[..e], Blanks);
        var v := Trim(t[e + 1..], Blanks);
        assert '=' !in t[..e];
        TrimKeeps(t[..e], Blanks, '=');
        TrimKeeps(t[..e], Blanks, '#');
        TrimKeeps(t[e + 1..], Blanks, '#');
        ToLowerKeeps(k, '=');
        ToLowerKeeps(k, '#');
        ToLowerTrimmed(k);
        Entry(ToLower(k), v)
  }

  /** A line with the line breaks stripped from its end, then the blanks from its start. */
  function Normalize(raw: string): string {
    TrimLeft(TrimRight(raw, LineBreaks), Blanks)
  }

  /** A normalised line is no longer than the line, and neither starts with a blank nor ends in a line break. */
  lemma NormalizeShape(raw: string)
    ensures var s := Normalize(raw);
      |s| <= |raw| && (s == [] || (s[0] !in Blanks && s[|s| - 1] !in LineBreaks))
  {
    var r := TrimRight(raw, LineBreaks);
    var s := TrimLeft(r, Blanks);
    if s != [] {
      assert s[|s| - 1] == r[|r| - 1];
    }
  }

  /** Empty lines, `#` lines and `[section]` headers are skipped. */
  predicate IsSkipped(s: string) {
    s == [] || s[0] == '#' || (s[0] == '[' && s[|s| - 1] == ']')
  }

  /**
   * One line of the file: normalised, skipped if it is empty, a comment or a
   * section header, otherwise cut at its inline comment and split at `=`.
   */
  function ParseLine(raw: string): (r: Line)
    ensures r.Entry? ==> '=' !in r.key && '#' !in r.key && '#' !in r.value
    ensures r.Entry? ==> NoUpper(r.key) && Trimmed(r.key, Blanks) && Trimmed(r.value, Blanks)
  {
    var s := Normalize(raw);
    if IsSkipped(s) then Skip else SplitEntry(CutComment(s))
  }

  /** A key as it is written in a well-formed entry. */
  predicate WellFormedKey(key: string) {
    && Trimmed(key, Blanks) && NoUpper(key)
    && '=' !in key && '#' !in key
    && (key == [] || key[0] != '[')
  }

  /** A value as it is written in a well-formed entry. */
  predicate WellFormedValue(value: string) {
    && Trimmed(value, Blanks) && '#' !in value
    && (value == [] || value[|value| - 1] !in LineBreaks)
  }

  /** The ends of a well-formed `key=value` text. */
  lemma EntryEnds(key: string, value: string)
    requires WellFormedKey(key) && WellFormedValue(value)
    ensures var body := key + "=" + value;
      && body[0] !in Blanks && body[0] != '#' && body[0] != '['
      && body[|body| - 1] !in LineBreaks && body[|body| - 1] !in Blanks
      && '#' !in body
  {
    var body := key + "=" + value;
    if key != [] { assert body[0] == key[0]; }
    if value != [] { assert body[|body| - 1] == value[|value| - 1]; }
  }

  /** Where Normalize cuts a line that does not start with a blank. */
  lemma NormalizeKeeps(raw: string, n: nat)
    requires 0 < n <= |raw| && raw[0] !in Blanks && raw[n - 1] !in LineBreaks
    requires forall i :: n <= i < |raw| ==> raw[i] in LineBreaks
    ensures Normalize(raw) == raw[..n]
  {
    TrimRightKeeps(raw, LineBreaks, n);
    TrimLeftKeeps(raw[..n], Blanks, 0);
  }

  lemma SplitWellFormed(key: string, value: string)
    requires WellFormedKey(key) && WellFormedValue(value)
    ensures SplitEntry(key + "=" + value) == Entry(key, value)
  {
    var t := key + "=" + value;
    assert t[..|key|] == key && t[|key| + 1..] == value;
    FindCharAt(t, '=', |key|);
  }

  /** A line written as `key=value` reads back as that key and value. */
  lemma ParseWritten(key: string, value: string)
    requires WellFormedKey(key) && WellFormedValue(value)
    ensures ParseLine(key + "=" + value + "\n") == Entry(key, value)
  {
    var body := key + "=" + value;
    EntryEnds(key, value);
    NormalizeKeeps(body + "\n", |body|);
    assert (body + "\n")[..|body|] == body;
    SplitWellFormed(key, value);
  }

  /** Nothing but blanks. */
  predicate Padding(s: string) {
    forall i :: 0 <= i < |s| ==> s[i] in Blanks
  }

  /**
   * Blanks around the key and the value are dropped and the key is
   * lower-cased: keys match case-insensitively. A value of blanks only
   * (`v == []`) is read as the empty value.
   */
  lemma SplitPadded(p1: string, k: string, p2: string, p3: string, v: string, p4: string)
    requires Padding(p1) && Padding(p2) && Padding(p3) && Padding(p4)
    requires k != [] && Trimmed(k, Blanks) && '=' !in k
    requires Trimmed(v, Blanks)
    ensures SplitEntry((p1 + k + p2) + "=" + (p3 + v + p4)) == Entry(ToLower(k), v)
  {
    var a := p1 + k + p2;
    var b := p3 + v + p4;
    var t := a + "=" + b;
    PaddedFree(p1, k, p2, '=');
    assert t[..|a|] == a && t[|a| + 1..] == b;
    SplitAt(t, |a|);
    TrimPadded(p1, k, p2, Blanks);
    TrimPadded(p3, v, p4, Blanks);
  }

  /** A line is split at its first `=`. */
  lemma SplitAt(t: string, e: nat)
    requires e < |t| && t[e] == '=' && '=' !in t[..e]
    ensures SplitEntry(t) == Entry(ToLower(Trim(t[..e], Blanks)), Trim(t[e + 1..], Blanks))
  {
    FindCharAt(t, '=', e);
  }

  /** Padding adds no character that is not a blank. */
  lemma PaddedFree(p: string, k: string, q: string, c: char)
    requires Padding(p) && Padding(q) && c !in Blanks && c !in k
    ensures c !in p + k + q
  {
    var s := p + k + q;
    forall i | 0 <= i < |s|
      ensures s[i] != c
    {
      if |p| <= i < |p| + |k| {
        assert s[i] == k[i - |p|];
      }
    }
  }

  /**
   * A padded, mixed-case entry line ending in any line breaks reads as its
   * lower-cased key and its value, blanks dropped; `password = ` reads as
   * an empty password.
   */
  lemma ParsePadded(p1: string, k: string, p2: string, p3: string, v: string, p4: string, breaks: string)
    requires Padding(p1) && Padding(p2) && Padding(p3) && Padding(p4)
    requires forall i :: 0 <= i < |breaks| ==> breaks[i] in LineBreaks
    requires k != [] && Trimmed(k, Blanks) && '=' !in k && '#' !in k && k[0] != '['
    requires Trimmed(v, Blanks) && '#' !in v && (v != [] ==> v[|v| - 1] !in LineBreaks)
    ensures ParseLine(p1 + k + p2 + "=" + p3 + v + p4 + breaks) == Entry(ToLower(k), v)
  {
    var s := (k + p2) + "=" + (p3 + v + p4);
    Regroup(p1, k, p2, p3, v, p4, breaks);
    PaddedEntryShape(k, p2, p3, v, p4);
    ParseEntryLine(p1, s, breaks);
    SplitUnindented(k, p2, p3, v, p4);
  }

  lemma Regroup(p1: string, k: string, p2: string, p3: string, v: string, p4: string, breaks: string)
    ensures p1 + k + p2 + "=" + p3 + v + p4 + breaks == p1 + ((k + p2) + "=" + (p3 + v + p4)) + breaks
  {
  }

  lemma SplitUnindented(k: string, p2: string, p3: string, v: string, p4: string)
    requires Padding(p2) && Padding(p3) && Padding(p4)
    requires k != [] && Trimmed(k, Blanks) && '=' !in k
    requires Trimmed(v, Blanks)
    ensures SplitEntry((k + p2) + "=" + (p3 + v + p4)) == Entry(ToLower(k), v)
  {
    assert [] + k == k;
    SplitPadded([], k, p2, p3, v, p4);
  }

  /** The ends of an entry whose key and value are padded with blanks. */
  lemma PaddedEntryShape(k: string, p2: string, p3: string, v: string, p4: string)
    requires Padding(p2) && Padding(p3) && Padding(p4)
    requires k != [] && k[0] !in Blanks && '#' !in k && k[0] != '['
    requires '#' !in v && (v != [] ==> v[|v| - 1] !in LineBreaks)
    ensures var s := (k + p2) + "=" + (p3 + v + p4);
      && s[0] == k[0] && s[|s| - 1] !in LineBreaks && '#' !in s
  {
    var s := (k + p2) + "=" + (p3 + v + p4);
    assert s[|s| - 1] ==
      if p4 != [] then p4[|p4| - 1]
      else if v != [] then v[|v| - 1]
      else if p3 != [] then p3[|p3| - 1]
      else '=';
    PaddedFree([], k, p2, '#');
    assert [] + k + p2 == k + p2;
    PaddedFree(p3, v, p4, '#');
  }

  /** A line that is neither skipped nor commented is split as it stands. */
  lemma ParseEntryLine(p1: string, s: string, breaks: string)
    requires Padding(p1) && forall i :: 0 <= i < |breaks| ==> breaks[i] in LineBreaks
    requires s != [] && s[0] !in Blanks && s[0] != '#' && s[0] != '['
    requires s[|s| - 1] !in LineBreaks && '#' !in s
    ensures ParseLine(p1 + s + breaks) == SplitEntry(s)
  {
    NormalizePadded(p1, s, breaks);
    ParseLineCut(p1 + s + breaks, s);
  }

  /** Normalising drops the leading blanks and the trailing line breaks. */
  lemma NormalizePadded(p1: string, s: string, breaks: string)
    requires Padding(p1) && forall i :: 0 <= i < |breaks| ==> breaks[i] in LineBreaks
    requires s != [] && s[0] !in Blanks && s[|s| - 1] !in LineBreaks
    ensures Normalize(p1 + s + breaks) == s
  {
    var body := p1 + s;
    assert p1 + s + breaks == body + breaks;
    TrimRightKeeps(body + breaks, LineBreaks, |body|);
    assert (body + breaks)[..|body|] == body;
    assert body[|p1|] == s[0];
    TrimLeftKeeps(body, Blanks, |p1|);
  }

  /** An inline comment after an entry is cut, with the blank in front of it. */
  lemma ParseCommented(key: string, value: string, note: string)
    requires WellFormedKey(key) && WellFormedValue(value)
    ensures ParseLine(key + "=" + value + " #" + note + "\n") == Entry(key, value)
  {
    var body := key + "=" + value;
    EntryEnds(key, value);
    CommentedCut(body, note);
    ParseLineCut(body + " #" + note + "\n", body);
    SplitWellFormed(key, value);
  }

  /** A commented line is not skipped, and cutting its comment leaves the text in front. */
  lemma CommentedCut(body: string, note: string)
    requires body != [] && body[0] !in Blanks && body[0] != '#' && body[0] != '['
    requires body[|body| - 1] !in Blanks && '#' !in body
    ensures var s := Normalize(body + " #" + note + "\n");
      !IsSkipped(s) && CutComment(s) == body
  {
    NormalizeCommented(body, note);
    CommentedAt(Normalize(body + " #" + note + "\n"), body);
  }

  lemma CommentedAt(s: string, body: string)
    requires body != [] && body[0] !in Blanks && body[0] != '#' && body[0] != '['
    requires body[|body| - 1] !in Blanks && '#' !in body
    requires |body| + 2 <= |s| && s[..|body| + 2] == body + " #"
    ensures !IsSkipped(s) && CutComment(s) == body
  {
    assert s[0] == body[0];
    var spaced := s[..|body| + 1];
    assert spaced == body + " ";
    CutCommentAt(s, |body| + 1);
    TrimRightKeeps(spaced, Blanks, |body|);
  }

  /** A line that is not skipped is split after its comment is cut. */
  lemma ParseLineCut(raw: string, t: string)
    requires !IsSkipped(Normalize(raw)) && CutComment(Normalize(raw)) == t
    ensures ParseLine(raw) == SplitEntry(t)
  {
  }

  /** Normalising a commented line keeps the text up to and including the `#`. */
  lemma NormalizeCommented(body: string, note: string)
    requires body != [] && body[0] !in Blanks && '#' !in body
    ensures var s := Normalize(body + " #" + note + "\n");
      |body| + 2 <= |s| && s[..|body| + 2] == body + " #"
  {
    var raw := body + " #" + note + "\n";
    var r := TrimRight(raw, LineBreaks);
    assert raw[|body| + 1] == '#';
    assert |body| + 2 <= |r|;
    TrimLeftKeeps(r, Blanks, 0);
    assert r[..|body| + 2] == raw[..|body| + 2];
  }

  /** Where the first `#` of a line is, there CutComment cuts. */
  lemma CutCommentAt(s: string, n: nat)
    requires n < |s| && s[n] == '#' && '#' !in s[..n]
    ensures CutComment(s) == TrimRight(s[..n], Blanks)
  {
    FindCharAt(s, '#', n);
  }

  /**
   * A line is skipped exactly when, once normalised, it is empty, a comment
   * or a section header: cutting the comment of any other line leaves text.
   */
  lemma SkippedExactly(raw: string)
    ensures ParseLine(raw).Skip? <==> IsSkipped(Normalize(raw))
  {
    var s := Normalize(raw);
    NormalizeShape(raw);
    if !IsSkipped(s) {
      CutKeepsFirst(s);
      assert ParseLine(raw) == SplitEntry(CutComment(s));
    }
  }

  /** Cutting the comment off a line that starts with text leaves that text. */
  lemma CutKeepsFirst(s: string)
    requires s != [] && s[0] !in Blanks && s[0] != '#'
    ensures CutComment(s) != []
  {
    var c := FindChar(s, '#');
    if c < |s| {
      assert c > 0 && s[..c][0] == s[0];
    }
  }

  /** A line whose first non-blank character is `#` is skipped. */
  lemma CommentLineSkipped(pad: string, text: string)
    requires forall i :: 0 <= i < |pad| ==> pad[i] in Blanks
    ensures ParseLine(pad + "#" + text) == Skip
  {
    var raw := pad + "#" + text;
    var r := TrimRight(raw, LineBreaks);
    assert raw[|pad|] == '#';
    TrimLeftKeeps(r, Blanks, |pad|);
  }

  /** A `[section]` header, indented or not, is skipped. */
  lemma SectionLineSkipped(pad: string, name: string)
    requires forall i :: 0 <= i < |pad| ==> pad[i] in Blanks
    ensures ParseLine(pad + "[" + name + "]" + "\n") == Skip
  {
    var body := pad + "[" + name + "]";
    TrimRightKeeps(body + "\n", LineBreaks, |body|);
    assert (body + "\n")[..|body|] == body;
    TrimLeftKeeps(body, Blanks, |pad|);
    var s := body[|pad|..];
    assert s[0] == '[' && s[|s| - 1] == ']';
  }

  /** A line of blanks followed by line breaks is skipped. */
  lemma BlankLineSkipped(pad: string, breaks: string)
    requires forall i :: 0 <= i < |pad| ==> pad[i] in Blanks
    requires forall i :: 0 <= i < |breaks| ==> breaks[i] in LineBreaks
    ensures ParseLine(pad + breaks) == Skip
  {
    var raw := pad + breaks;
    TrimRightKeeps(raw, LineBreaks, |pad|);
    assert raw[..|pad|] == pad;
    TrimLeftKeeps(pad, Blanks, |pad|);
  }

  /**
   * A section header followed by a blank is not recognised as a header and
   * counts as a line without `=`.
   */
  lemma SectionWithTrailingBlankIsError()
    ensures ParseLine("[pool] \n") == MissingEquals
  {
    var raw := "[pool] \n";
    TrimRightKeeps(raw, LineBreaks, 7);
    var s := raw[..7];
    TrimLeftKeeps(s, Blanks, 0);
    assert s[6] == ' ';
    assert FindChar(s, '#') == 7;
    assert '=' !in s;
  }

  /** A blank after a line break is not stripped, so ` \r \n` is a line without `=`. */
  lemma BlankAfterBreakIsError()
    ensures ParseLine(" \r \n") == MissingEquals
  {
    var raw := " \r \n";
    TrimRightKeeps(raw, LineBreaks, 3);
    var r := raw[..3];
    TrimLeftKeeps(r, Blanks, 1);
    var s := r[1..];
    assert s == "\r ";
    assert FindChar(s, '#') == 2;
    assert '=' !in s;
  }

  // ---------------------------------------------------------- key table

  /** The key table of `loadConfigFile`, with its aliases. */
  const KeyTable: map<string, Field> := map[
    "ip" := Ip, "host" := Ip,
    "port" := Port,
    "username" := Username, "user" := Username,
    "password" := Password,
    "dbname" := DbName, "database" := DbName,
    "initsize" := InitSize, "initial_size" := InitSize,
    "maxsize" := MaxSize, "max_size" := MaxSize,
    "maxidletime" := MaxIdleTime, "max_idle_time" := MaxIdleTime,
    "connectiontimeout" := ConnectionTimeout, "connect_timeout" := ConnectionTimeout,
    "test_on_borrow" := Ignored, "validation_query" := Ignored ]

  /** The field a key names; a key outside the table is `Unknown`. */
  function FieldOf(key: string): Field {
    if key in KeyTable then KeyTable[key] else Unknown
  }

  /** Only a key outside the table draws the unknown-key warning. */
  lemma UnknownExactly(key: string)
    ensures FieldOf(key).Unknown? <==> key !in KeyTable
  {
    if key in KeyTable {
      assert !KeyTable[key].Unknown?;
    }
  }

  /** Every field but `f` is the same in `a` and `b`. */
  predicate SameExcept(a: Settings, b: Settings, f: Field) {
    && (f != Ip ==> b.ip == a.ip)
    && (f != Port ==> b.port == a.port)
    && (f != Username ==> b.username == a.username)
    && (f != Password ==> b.password == a.password)
    && (f != DbName ==> b.dbname == a.dbname)
    && (f != InitSize ==> b.initSize == a.initSize)
    && (f != MaxSize ==> b.maxSize == a.maxSize)
    && (f != MaxIdleTime ==> b.maxIdleTime == a.maxIdleTime)
    && (f != ConnectionTimeout ==> b.connectionTimeout == a.connectionTimeout)
  }

  predicate IsText(f: Field) {
    f.Ip? || f.Username? || f.Password? || f.DbName?
  }

  /**
   * Numeric field `f` of `s` holds the number `n` stoi read. The port is an
   * `unsigned short`, so it keeps `n` modulo 2^16.
   */
  predicate HoldsNumber(s: Settings, f: Field, n: int)
    requires IsNumeric(f)
  {
    match f
    case Port => 0 <= s.port < 0x1_0000 && (n - s.port) % 0x1_0000 == 0
    case InitSize => s.initSize == n
    case MaxSize => s.maxSize == n
    case MaxIdleTime => s.maxIdleTime == n
    case ConnectionTimeout => s.connectionTimeout == n
  }

  /** Field `f` of `s` holds what the text `value` sets it to. */
  predicate Holds(s: Settings, f: Field, value: string) {
    if IsText(f) then
      (f.Ip? ==> s.ip == value) && (f.Username? ==> s.username == value)
      && (f.Password? ==> s.password == value) && (f.DbName? ==> s.dbname == value)
    else if IsNumeric(f) then
      Stoi(value).Some? && HoldsNumber(s, f, Stoi(value).value)
    else true
  }

  /**
   * Stores `value` in field `f`. Numeric fields go through stoi, and `None`
   * is the exception stoi throws.
   */
  function Assign(s: Settings, f: Field, value: string): (r: Option<Settings>)
    ensures r.None? <==> IsNumeric(f) && Stoi(value).None?
    ensures r.Some? ==> SameExcept(s, r.value, f) && Holds(r.value, f, value)
    ensures f.Ignored? || f.Unknown? ==> r == Some(s)
  {
    if IsText(f) then Some(StoreText(s, f, value))
    else if IsNumeric(f) then
      match Stoi(value)
      case None => None
      case Some(n) => Some(StoreNumber(s, f, n))
    else Some(s)
  }

  /** Stores the text `value` in the text field `f`. */
  function StoreText(s: Settings, f: Field, value: string): (r: Settings)
    requires IsText(f)
    ensures SameExcept(s, r, f) && Holds(r, f, value)
  {
    match f
    case Ip => s.(ip := value)
    case Username => s.(username := value)
    case Password => s.(password := value)
    case DbName => s.(dbname := value)
  }

  /** Stores the number `n` that stoi read into the numeric field `f`. */
  function StoreNumber(s: Settings, f: Field, n: int): (r: Settings)
    requires IsNumeric(f)
    ensures SameExcept(s, r, f) && HoldsNumber(r, f, n)
  {
    match f
    case Port => s.(port := n % 0x1_0000)
    case InitSize => s.(initSize := n)
    case MaxSize => s.(maxSize := n)
    case MaxIdleTime => s.(maxIdleTime := n)
    case ConnectionTimeout => s.(connectionTimeout := n)
  }

  /** Each pair of aliases in the key table names one field. */
  lemma AliasesShareField()
    ensures FieldOf("host") == FieldOf("ip") == Ip
    ensures FieldOf("user") == FieldOf("username") == Username
    ensures FieldOf("database") == FieldOf("dbname") == DbName
    ensures FieldOf("initial_size") == FieldOf("initsize") == InitSize
    ensures FieldOf("max_size") == FieldOf("maxsize") == MaxSize
    ensures FieldOf("max_idle_time") == FieldOf("maxidletime") == MaxIdleTime
    ensures FieldOf("connect_timeout") == FieldOf("connectiontimeout") == ConnectionTimeout
  {
    HostAlias();
    UserAlias();
    DatabaseAlias();
    InitialSizeAlias();
    MaxSizeAlias();
    MaxIdleTimeAlias();
    ConnectTimeoutAlias();
  }

  lemma HostAlias()
    ensures FieldOf("host") == FieldOf("ip") == Ip
  {
  }

  lemma UserAlias()
    ensures FieldOf("user") == FieldOf("username") == Username
  {
  }

  lemma DatabaseAlias()
    ensures FieldOf("database") == FieldOf("dbname") == DbName
  {
  }

  lemma InitialSizeAlias()
    ensures FieldOf("initial_size") == FieldOf("initsize") == InitSize
  {
  }

  lemma MaxSizeAlias()
    ensures FieldOf("max_size") == FieldOf("maxsize") == MaxSize
  {
  }

  lemma MaxIdleTimeAlias()
    ensures FieldOf("max_idle_time") == FieldOf("maxidletime") == MaxIdleTime
  {
  }

  lemma ConnectTimeoutAlias()
    ensures FieldOf("connect_timeout") == FieldOf("connectiontimeout") == ConnectionTimeout
  {
  }

  // ---------------------------------------------------------- whole file

  /** The fields stored so far and whether a syntax error was seen. */
  datatype Scan = Scan(settings: Settings, hasError: bool)

  datatype LoadResult =
    | Loaded(settings: Settings)     // loadConfigFile returned true
    | Rejected(settings: Settings)   // it returned false; the fields keep what was read
    | Aborted                        // stoi threw out of it

  /** The effect of one line on the scan; `None` when stoi throws. */
  function Step(sc: Scan, raw: string): Option<Scan> {
    match ParseLine(raw)
    case Skip => Some(sc)
    case MissingEquals => Some(sc.(hasError := true))
    case Entry(key, value) =>
      match Assign(sc.settings, FieldOf(key), value)
      case None => None
      case Some(s) => Some(sc.(settings := s))
  }

  /**
   * Only an entry can change the fields or make stoi throw, and only a line
   * without `=` raises the error flag, which never falls again.
   */
  lemma StepEffects(sc: Scan, raw: string)
    ensures Step(sc, raw).None? ==> ParseLine(raw).Entry?
    ensures Step(sc, raw).Some? && !ParseLine(raw).Entry? ==> Step(sc, raw).value.settings == sc.settings
    ensures Step(sc, raw).Some? ==>
      (Step(sc, raw).value.hasError <==> sc.hasError || ParseLine(raw).MissingEquals?)
  {
    match ParseLine(raw)
    case Skip =>
    case MissingEquals =>
    case Entry(key, value) =>
      match Assign(sc.settings, FieldOf(key), value)
      case None =>
      case Some(s) => assert Step(sc, raw) == Some(sc.(settings := s));
  }

  /**
   * The lines read in order, starting from the unset fields. A line without
   * `=` does not stop the reading, and the error flag is set exactly when
   * some line lacked `=`.
   */
  function ScanLines(lines: seq<string>): (r: Option<Scan>)
    ensures r.Some? ==> (r.value.hasError <==> HasMissingEquals(lines))
    decreases |lines|
  {
    if lines == [] then Some(Scan(Unset, false))
    else match ScanLines(lines[..|lines| - 1])
      case None => None
      case Some(sc) => Step(sc, lines[|lines| - 1])
  }

  /**
   * The checks made after the last line: the load succeeds exactly when no
   * line lacked `=` and the settings are acceptable, and the fields are
   * reported either way.
   */
  function Validate(sc: Scan): (r: LoadResult)
    ensures !r.Aborted? && r.settings == sc.settings
    ensures r.Loaded? <==> !sc.hasError && Acceptable(sc.settings)
  {
    var s := sc.settings;
    if sc.hasError || s.ip == [] || s.username == [] || s.dbname == []
       || s.initSize <= 0 || s.maxSize <= 0 || s.initSize > s.maxSize
    then Rejected(s)
    else Loaded(s)
  }

  /**
   * The whole of `loadConfigFile`: `None` is a file that cannot be opened,
   * which fails the load before any field is touched.
   */
  function Load(file: Option<seq<string>>): LoadResult {
    match file
    case None => Rejected(Unset)
    case Some(lines) => LoadLines(lines)
  }

  /** Reading the lines of a file that opened, then validating them. */
  function LoadLines(lines: seq<string>): LoadResult {
    match ScanLines(lines)
    case None => Aborted
    case Some(sc) => Validate(sc)
  }

  /**
   * A file that cannot be opened is rejected with every field unset; the
   * load aborts exactly when stoi throws on some line; and a load that
   * succeeds has acceptable settings and no line without `=`.
   */
  lemma LoadOutcome(file: Option<seq<string>>)
    ensures file.None? ==> Load(file) == Rejected(Unset)
    ensures Load(file).Aborted? <==> file.Some? && ScanLines(file.value).None?
    ensures Load(file).Loaded? ==>
      file.Some? && Acceptable(Load(file).settings) && !HasMissingEquals(file.value)
  {
    if file.Some? {
      match ScanLines(file.value)
      case None =>
      case Some(sc) =>
    }
  }

  /** Once stoi has thrown, the remaining lines are never read. */
  lemma {:induction false} AbortIsFinal(lines: seq<string>, n: nat)
    requires n <= |lines| && ScanLines(lines[..n]).None?
    ensures ScanLines(lines).None?
    decreases |lines| - n
  {
    if n < |lines| {
      AbortExtends(lines, n);
      AbortIsFinal(lines, n + 1);
    } else {
      assert lines[..n] == lines;
    }
  }

  lemma AbortExtends(lines: seq<string>, n: nat)
    requires n < |lines| && ScanLines(lines[..n]).None?
    ensures ScanLines(lines[..n + 1]).None?
  {
    assert lines[..n + 1][..n] == lines[..n];
  }

  /** Some line of `lines` lacks `=`. */
  predicate HasMissingEquals(lines: seq<string>)
    decreases |lines|
  {
    lines != [] && (HasMissingEquals(lines[..|lines| - 1]) || ParseLine(lines[|lines| - 1]).MissingEquals?)
  }

  /** A line without `=` anywhere in the file is counted. */
  lemma {:induction false} MissingEqualsAt(lines: seq<string>, i: nat)
    requires i < |lines| && ParseLine(lines[i]).MissingEquals?
    ensures HasMissingEquals(lines)
    decreases |lines|
  {
    if i < |lines| - 1 {
      var init := lines[..|lines| - 1];
      assert init[i] == lines[i];
      MissingEqualsAt(init, i);
    }
  }

  /** One more line: the scan before it, then its step. */
  lemma ScanNext(lines: seq<string>, n: nat)
    requires n < |lines|
    ensures ScanLines(lines[..n + 1])
            == if ScanLines(lines[..n]).None? then None else Step(ScanLines(lines[..n]).value, lines[n])
  {
    assert lines[..n + 1][..n] == lines[..n];
  }

  /**
   * `loadConfigFile`: a file that cannot be opened fails the load at once;
   * otherwise its lines are read by ReadLines.
   */
  method LoadConfig(file: Option<seq<string>>) returns (r: LoadResult)
    ensures r == Load(file)
    ensures r.Loaded? ==> Acceptable(r.settings)
    ensures r.Loaded? ==> file.Some? && !HasMissingEquals(file.value)
  {
    if file.None? {
      return Rejected(Unset);
    }
    r := ReadLines(file.value);
  }

  /**
   * One pass of the reading loop: a line without `=` sets the error flag, an
   * entry is stored in the field its key names, and `None` is stoi throwing.
   */
  method ReadLine(sc: Scan, raw: string) returns (r: Option<Scan>)
    ensures r == Step(sc, raw)
    ensures r.Some? ==> r.value.hasError == (sc.hasError || ParseLine(raw).MissingEquals?)
  {
    var settings, hasError := sc.settings, sc.hasError;
    var line := ParseLine(raw);
    if line.MissingEquals? {
      hasError := true;
    } else if line.Entry? {
      var stored := Assign(settings, FieldOf(line.key), line.value);
      if stored.None? {
        return None;
      }
      settings := stored.value;
    }
    r := Some(Scan(settings, hasError));
  }

  /**
   * The body of `loadConfigFile` once the file is open: each line parsed in
   * turn, then the required fields and the pool bounds checked. A load that
   * succeeds has every required field and `0 < initSize <= maxSize`, and no
   * line of it lacked `=`.
   */
  method ReadLines(lines: seq<string>) returns (r: LoadResult)
    ensures r == LoadLines(lines)
    ensures r.Loaded? ==> Acceptable(r.settings)
    ensures r.Loaded? ==> !HasMissingEquals(lines)
  {
    var settings := Unset;
    var hasError := false;
    var i := 0;
    while i < |lines|
      invariant 0 <= i <= |lines|
      invariant ScanLines(lines[..i]) == Some(Scan(settings, hasError))
    {
      ScanNext(lines, i);
      var next := ReadLine(Scan(settings, hasError), lines[i]);
      if next.None? {
        AbortIsFinal(lines, i + 1);
        return Aborted;
      }
      settings, hasError := next.value.settings, next.value.hasError;
      i := i + 1;
    }
    assert lines[..i] == lines;

    if settings.ip == [] { hasError := true; }
    if settings.username == [] { hasError := true; }
    if settings.dbname == [] { hasError := true; }
    if settings.initSize <= 0 || settings.maxSize <= 0 || settings.initSize > settings.maxSize {
      hasError := true;
    }
    r := if hasError then Rejected(settings) else Loaded(settings);
  }

  // ------------------------------------------------------------- example

  /** Reading a `key=value` line stores the value in the field the key names. */
  lemma StepWritten(sc: Scan, key: string, value: string)
    requires WellFormedKey(key) && WellFormedValue(value)
    ensures Step(sc, key + "=" + value + "\n")
            == match Assign(sc.settings, FieldOf(key), value)
               case None => None
               case Some(s) => Some(sc.(settings := s))
  {
    ParseWritten(key, value);
  }

  /** Digits alone are a well-formed value. */
  lemma DigitsWellFormed(d: string)
    requires AllDigits(d)
    ensures WellFormedValue(d)
  {
  }

  /**
   * A configuration file with a section header, a comment line, and the
   * required keys under their aliases: host, user, database, initial_size
   * and max_size.
   */
  function RequiredFile(section: string, note: string, host: string, user: string, database: string,
                        initSize: nat, maxSize: nat): seq<string>
  {
    [ "[" + section + "]" + "\n",
      "#" + note,
      "host" + "=" + host + "\n",
      "user" + "=" + user + "\n",
      "database" + "=" + database + "\n",
      "initial_size" + "=" + DecimalString(initSize) + "\n",
      "max_size" + "=" + DecimalString(maxSize) + "\n" ]
  }

  /**
   * Such a file loads, with exactly the values it names; the port, the
   * password, the idle time and the timeout keep their unset zero values.
   */
  lemma RequiredFileLoads(section: string, note: string, host: string, user: string, database: string,
                          initSize: nat, maxSize: nat)
    requires WellFormedValue(host) && WellFormedValue(user) && WellFormedValue(database)
    requires host != [] && user != [] && database != []
    requires 0 < initSize <= maxSize <= IntMax
    ensures Load(Some(RequiredFile(section, note, host, user, database, initSize, maxSize)))
            == Loaded(Settings(host, 0, user, "", database, initSize, maxSize, 0, 0))
  {
    RequiredFileScans(section, note, host, user, database, initSize, maxSize);
  }

  /** The scan states after each line of such a file. */
  function RequiredScans(host: string, user: string, database: string, initSize: nat, maxSize: nat): seq<Scan> {
    var s0 := Scan(Unset, false);
    var s1 := s0.(settings := s0.settings.(ip := host));
    var s2 := s1.(settings := s1.settings.(username := user));
    var s3 := s2.(settings := s2.settings.(dbname := database));
    var s4 := s3.(settings := s3.settings.(initSize := initSize));
    [s0, s0, s0, s1, s2, s3, s4, s4.(settings := s4.settings.(maxSize := maxSize))]
  }

  /** The scan of such a file, line by line. */
  lemma RequiredFileScans(section: string, note: string, host: string, user: string, database: string,
                          initSize: nat, maxSize: nat)
    requires WellFormedValue(host) && WellFormedValue(user) && WellFormedValue(database)
    requires initSize <= IntMax && maxSize <= IntMax
    ensures ScanLines(RequiredFile(section, note, host, user, database, initSize, maxSize))
            == Some(Scan(Settings(host, 0, user, "", database, initSize, maxSize, 0, 0), false))
  {
    var f := RequiredFile(section, note, host, user, database, initSize, maxSize);
    var scans := RequiredScans(host, user, database, initSize, maxSize);
    forall k | 0 <= k < 7
      ensures Step(scans[k], f[k]) == Some(scans[k + 1])
    {
      RequiredFileStep(k, section, note, host, user, database, initSize, maxSize);
    }
    ScanThrough(f, scans);
  }

  /** Each line of such a file takes the scan one state further. */
  lemma RequiredFileStep(k: nat, section: string, note: string, host: string, user: string, database: string, initSize: nat, maxSize: nat)
    requires k < 7
    requires WellFormedValue(host) && WellFormedValue(user) && WellFormedValue(database)
    requires initSize <= IntMax && maxSize <= IntMax
    ensures var scans := RequiredScans(host, user, database, initSize, maxSize);
      Step(scans[k], RequiredFile(section, note, host, user, database, initSize, maxSize)[k]) == Some(scans[k + 1])
  {
    if k == 0 {
      SectionStep(k, section, note, host, user, database, initSize, maxSize);
    } else if k == 1 {
      CommentStep(k, section, note, host, user, database, initSize, maxSize);
    } else if k == 2 {
      HostStep(k, section, note, host, user, database, initSize, maxSize);
    } else if k == 3 {
      UserStep(k, section, note, host, user, database, initSize, maxSize);
    } else if k == 4 {
      DatabaseStep(k, section, note, host, user, database, initSize, maxSize);
    } else if k == 5 {
      InitialSizeStep(k, section, note, host, user, database, initSize, maxSize);
    } else {
      MaxSizeStep(k, section, note, host, user, database, initSize, maxSize);
    }
  }

  lemma SectionStep(k: nat, section: string, note: string, host: string, user: string, database: string, initSize: nat, maxSize: nat)
    requires k == 0
    requires WellFormedValue(host) && WellFormedValue(user) && WellFormedValue(database)
    requires initSize <= IntMax && maxSize <= IntMax
    ensures var scans := RequiredScans(host, user, database, initSize, maxSize);
      Step(scans[k], RequiredFile(section, note, host, user, database, initSize, maxSize)[k]) == Some(scans[k + 1])
  {
    var scans := RequiredScans(host, user, database, initSize, maxSize);
    var line := RequiredFile(section, note, host, user, database, initSize, maxSize)[0];
    assert line == "[" + section + "]" + "\n";
    HeaderEntry(scans[0], section);
  }

  lemma CommentStep(k: nat, section: string, note: string, host: string, user: string, database: string, initSize: nat, maxSize: nat)
    requires k == 1
    requires WellFormedValue(host) && WellFormedValue(user) && WellFormedValue(database)
    requires initSize <= IntMax && maxSize <= IntMax
    ensures var scans := RequiredScans(host, user, database, initSize, maxSize);
      Step(scans[k], RequiredFile(section, note, host, user, database, initSize, maxSize)[k]) == Some(scans[k + 1])
  {
    var scans := RequiredScans(host, user, database, initSize, maxSize);
    var line := RequiredFile(section, note, host, user, database, initSize, maxSize)[1];
    assert line == "#" + note;
    CommentEntry(scans[1], note);
  }

  lemma HostStep(k: nat, section: string, note: string, host: string, user: string, database: string, initSize: nat, maxSize: nat)
    requires k == 2
    requires WellFormedValue(host) && WellFormedValue(user) && WellFormedValue(database)
    requires initSize <= IntMax && maxSize <= IntMax
    ensures var scans := RequiredScans(host, user, database, initSize, maxSize);
      Step(scans[k], RequiredFile(section, note, host, user, database, initSize, maxSize)[k]) == Some(scans[k + 1])
  {
    var scans := RequiredScans(host, user, database, initSize, maxSize);
    var line := RequiredFile(section, note, host, user, database, initSize, maxSize)[2];
    assert line == "host" + "=" + host + "\n";
    HostEntry(scans[2], host);
  }

  lemma UserStep(k: nat, section: string, note: string, host: string, user: string, database: string, initSize: nat, maxSize: nat)
    requires k == 3
    requires WellFormedValue(host) && WellFormedValue(user) && WellFormedValue(database)
    requires initSize <= IntMax && maxSize <= IntMax
    ensures var scans := RequiredScans(host, user, database, initSize, maxSize);
      Step(scans[k], RequiredFile(section, note, host, user, database, initSize, maxSize)[k]) == Some(scans[k + 1])
  {
    var scans := RequiredScans(host, user, database, initSize, maxSize);
    var line := RequiredFile(section, note, host, user, database, initSize, maxSize)[3];
    assert line == "user" + "=" + user + "\n";
    UserEntry(scans[3], user);
  }

  lemma DatabaseStep(k: nat, section: string, note: string, host: string, user: string, database: string, initSize: nat, maxSize: nat)
    requires k == 4
    requires WellFormedValue(host) && WellFormedValue(user) && WellFormedValue(database)
    requires initSize <= IntMax && maxSize <= IntMax
    ensures var scans := RequiredScans(host, user, database, initSize, maxSize);
      Step(scans[k], RequiredFile(section, note, host, user, database, initSize, maxSize)[k]) == Some(scans[k + 1])
  {
    var scans := RequiredScans(host, user, database, initSize, maxSize);
    var line := RequiredFile(section, note, host, user, database, initSize, maxSize)[4];
    assert line == "database" + "=" + database + "\n";
    DatabaseEntry(scans[4], database);
  }

  lemma InitialSizeStep(k: nat, section: string, note: string, host: string, user: string, database: string, initSize: nat, maxSize: nat)
    requires k == 5
    requires WellFormedValue(host) && WellFormedValue(user) && WellFormedValue(database)
    requires initSize <= IntMax && maxSize <= IntMax
    ensures var scans := RequiredScans(host, user, database, initSize, maxSize);
      Step(scans[k], RequiredFile(section, note, host, user, database, initSize, maxSize)[k]) == Some(scans[k + 1])
  {
    var scans := RequiredScans(host, user, database, initSize, maxSize);
    var line := RequiredFile(section, note, host, user, database, initSize, maxSize)[5];
    assert line == "initial_size" + "=" + DecimalString(initSize) + "\n";
    InitialSizeEntry(scans[5], initSize);
  }

  lemma MaxSizeStep(k: nat, section: string, note: string, host: string, user: string, database: string, initSize: nat, maxSize: nat)
    requires k == 6
    requires WellFormedValue(host) && WellFormedValue(user) && WellFormedValue(database)
    requires initSize <= IntMax && maxSize <= IntMax
    ensures var scans := RequiredScans(host, user, database, initSize, maxSize);
      Step(scans[k], RequiredFile(section, note, host, user, database, initSize, maxSize)[k]) == Some(scans[k + 1])
  {
    var scans := RequiredScans(host, user, database, initSize, maxSize);
    var line := RequiredFile(section, note, host, user, database, initSize, maxSize)[6];
    assert line == "max_size" + "=" + DecimalString(maxSize) + "\n";
    MaxSizeEntry(scans[6], maxSize);
  }

  /**
   * Lines that each step from one scan state to the next, with no stoi
   * failure, scan from the unset fields to the last state.
   */
  lemma {:induction false} ScanThrough(lines: seq<string>, scans: seq<Scan>)
    requires |scans| == |lines| + 1 && scans[0] == Scan(Unset, false)
    requires forall k :: 0 <= k < |lines| ==> Step(scans[k], lines[k]) == Some(scans[k + 1])
    ensures ScanLines(lines) == Some(scans[|lines|])
    decreases |lines|
  {
    if lines != [] {
      var n := |lines| - 1;
      ScanThrough(lines[..n], scans[..n + 1]);
    }
  }

  /** A section header leaves the scan as it was. */
  lemma HeaderEntry(sc: Scan, section: string)
    ensures Step(sc, "[" + section + "]" + "\n") == Some(sc)
  {
    assert [] + "[" + section + "]" + "\n" == "[" + section + "]" + "\n";
    SectionLineSkipped([], section);
  }

  /** A comment line leaves the scan as it was. */
  lemma CommentEntry(sc: Scan, note: string)
    ensures Step(sc, "#" + note) == Some(sc)
  {
    assert [] + "#" + note == "#" + note;
    CommentLineSkipped([], note);
  }

  /** A well-formed entry for a text field stores its value there. */
  lemma TextEntry(sc: Scan, key: string, value: string)
    requires WellFormedKey(key) && WellFormedValue(value) && IsText(FieldOf(key))
    ensures Step(sc, key + "=" + value + "\n")
            == Some(sc.(settings := StoreText(sc.settings, FieldOf(key), value)))
  {
    StepWritten(sc, key, value);
  }

  /** A well-formed entry for a numeric field whose value stoi reads stores the number there. */
  lemma NumberEntry(sc: Scan, key: string, n: nat)
    requires WellFormedKey(key) && IsNumeric(FieldOf(key)) && n <= IntMax
    ensures Step(sc, key + "=" + DecimalString(n) + "\n")
            == Some(sc.(settings := StoreNumber(sc.settings, FieldOf(key), n)))
  {
    DigitsWellFormed(DecimalString(n));
    StoiDecimal(n);
    StepWritten(sc, key, DecimalString(n));
  }

  lemma HostEntry(sc: Scan, host: string)
    requires WellFormedValue(host)
    ensures Step(sc, "host" + "=" + host + "\n") == Some(sc.(settings := sc.settings.(ip := host)))
  {
    HostAlias();
    TextEntry(sc, "host", host);
  }

  lemma UserEntry(sc: Scan, user: string)
    requires WellFormedValue(user)
    ensures Step(sc, "user" + "=" + user + "\n") == Some(sc.(settings := sc.settings.(username := user)))
  {
    UserAlias();
    TextEntry(sc, "user", user);
  }

  lemma DatabaseEntry(sc: Scan, database: string)
    requires WellFormedValue(database)
    ensures Step(sc, "database" + "=" + database + "\n") == Some(sc.(settings := sc.settings.(dbname := database)))
  {
    DatabaseAlias();
    TextEntry(sc, "database", database);
  }

  lemma InitialSizeEntry(sc: Scan, n: nat)
    requires n <= IntMax
    ensures Step(sc, "initial_size" + "=" + DecimalString(n) + "\n") == Some(sc.(settings := sc.settings.(initSize := n)))
  {
    InitialSizeAlias();
    NumberEntry(sc, "initial_size", n);
  }

  lemma MaxSizeEntry(sc: Scan, n: nat)
    requires n <= IntMax
    ensures Step(sc, "max_size" + "=" + DecimalString(n) + "\n") == Some(sc.(settings := sc.settings.(maxSize := n)))
  {
    MaxSizeAlias();
    NumberEntry(sc, "max_size", n);
  }
}
