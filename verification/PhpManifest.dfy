/** Plugin manifests: the `$info` array of the plugin file, overridden by an INI file. */
module PhpManifest {
  import opened Names
  import opened Text
  import opened PhpScanner
  import opened PhpParser
  import opened PhpPrinter

  // ----- the INI file -----

  /** One line: nothing, a pair, or a value on which the parser aborts, because it takes a lone quote
      character for a quoted string. */
  datatype IniLine = Nothing | Pair(key: string, value: PhpValue) | Abort

  predicate Enclosed(s: string, quote: char) {
    s != [] && s[0] == quote && s[|s| - 1] == quote
  }

  function IniValue(raw: string): Option<PhpValue> {
    if Enclosed(raw, '"') || Enclosed(raw, '\'') then
      if |raw| == 1 then None else Some(Str(raw[1..|raw| - 1]))
    else if raw == "true" then Some(Bool(true))
    else if raw == "false" then Some(Bool(false))
    else if ParseI64(raw).Some? then Some(Int(ParseI64(raw).value))
    else Some(Str(raw))
  }

  function TrimWs(s: string): string {
    Trim(s, IsWhitespace)
  }

  predicate NotEquals(c: char) {
    c != '='
  }

  function ParseIniLine(raw: string): IniLine {
    var line := TrimWs(raw);
    if line == [] || line[0] == '#' || line[0] == ';' then Nothing
    else
      var eq := RunEnd(line, 0, NotEquals);
      if eq == |line| then Nothing
      else
        var value := IniValue(TrimWs(line[eq + 1..]));
        if value.None? then Abort else Pair(TrimWs(line[..eq]), value.value)
  }

  function IniFrom(m: map<string, PhpValue>, lines: seq<string>): Option<map<string, PhpValue>>
    decreases |lines|
  {
    if lines == [] then Some(m)
    else match ParseIniLine(lines[0])
      case Nothing => IniFrom(m, lines[1..])
      case Abort => None
      case Pair(key, value) => IniFrom(m[key := value], lines[1..])
  }

  method ParseSimpleIni(content: string) returns (r: Option<map<string, PhpValue>>)
    ensures r == IniFrom(map[], Split(content, '\n'))
  {
    hide ParseIniLine;
    var entries: map<string, PhpValue> := map[];
    var lines := Split(content, '\n');
    var i := 0;
    while i < |lines|
      invariant 0 <= i <= |lines|
      invariant IniFrom(map[], lines) == IniFrom(entries, lines[i..])
    {
      assert lines[i..][1..] == lines[i + 1..];
      match ParseIniLine(lines[i]) {
        case Nothing =>
        case Abort => return None;
        case Pair(key, value) => entries := entries[key := value];
      }
      i := i + 1;
    }
    return Some(entries);
  }

  /** The INI parser aborts exactly if some line aborts. */
  lemma {:induction false} AbortsIff(m: map<string, PhpValue>, lines: seq<string>)
    ensures IniFrom(m, lines).None? <==> exists i :: 0 <= i < |lines| && ParseIniLine(lines[i]).Abort?
    decreases |lines|
  {
    if lines != [] {
      var line := ParseIniLine(lines[0]);
      AbortsIff(if line.Pair? then m[line.key := line.value] else m, lines[1..]);
      if exists i :: 0 <= i < |lines| && ParseIniLine(lines[i]).Abort? {
        var i :| 0 <= i < |lines| && ParseIniLine(lines[i]).Abort?;
        assert i > 0 ==> lines[1..][i - 1] == lines[i];
      }
    }
  }

  /** A line aborts exactly if the value after its first equals sign is a single quote character. */
  lemma LineAbortsIff(raw: string)
    ensures
      var line := TrimWs(raw);
      var eq := RunEnd(line, 0, NotEquals);
      ParseIniLine(raw).Abort? <==>
        && line != [] && line[0] != '#' && line[0] != ';' && eq < |line|
        && (TrimWs(line[eq + 1..]) == "\"" || TrimWs(line[eq + 1..]) == "'")
  {
  }

  // ----- printing INI files -----

  function PrintIniValue(v: PhpValue): string {
    match v
    case Str(s) => "\"" + s + "\""
    case Int(i) => PrintInt(i)
    case Bool(b) => if b then "true" else "false"
  }

  function PrintIniLine(e: Entry): string {
    e.0 + (" = " + PrintIniValue(e.1))
  }

  function PrintIni(es: seq<Entry>): string {
    if es == [] then [] else PrintIniLine(es[0]) + (['\n'] + PrintIni(es[1..]))
  }

  /** Names that can stand at the start of an INI line. */
  predicate IniKey(k: string) {
    && k != [] && k[0] != '#' && k[0] != ';'
    && !IsWhitespace(k[0]) && !IsWhitespace(k[|k| - 1])
    && '=' !in k && '\n' !in k
  }

  predicate IniPrintable(e: Entry) {
    && IniKey(e.0) && Printable(e.1)
    && (e.1.Str? ==> '\n' !in e.1.s)
  }

  lemma TrimNothing(s: string)
    requires s == [] || (!IsWhitespace(s[0]) && !IsWhitespace(s[|s| - 1]))
    ensures TrimWs(s) == s
  {
  }

  lemma TrimBlanks(s: string)
    requires s != [] && !IsWhitespace(s[0]) && !IsWhitespace(s[|s| - 1])
    ensures TrimWs(s + " ") == s && TrimWs(" " + s) == s
  {
    var after, before := s + " ", " " + s;
    assert IsWhitespace(' ');
    assert after[0] == s[0] && TrimLeft(after, IsWhitespace) == after;
    assert after[..|after| - 1] == s && after[|after| - 1] == ' ';
    assert TrimRight(after, IsWhitespace) == TrimRight(s, IsWhitespace) == s;
    assert before[1..] == s && before[0] == ' ';
    assert TrimLeft(before, IsWhitespace) == TrimLeft(s, IsWhitespace) == s;
  }

  lemma IniValueEnds(v: PhpValue)
    requires Printable(v)
    ensures
      var s := PrintIniValue(v);
      s != [] && !IsWhitespace(s[0]) && !IsWhitespace(s[|s| - 1])
  {
    if v.Int? {
      var s := PrintInt(v.i);
      PrintedIntChars(v.i);
      assert NumberChar(s[0]) && NumberChar(s[|s| - 1]);
    }
  }

  lemma IniValueBack(v: PhpValue)
    requires Printable(v)
    ensures IniValue(PrintIniValue(v)) == Some(v)
  {
    match v
    case Str(s) =>
      var q := "\"" + s + "\"";
      assert q[1..|q| - 1] == s;
    case Int(i) =>
      PrintedIntChars(i);
      ParsePrintedInt(i);
      assert NumberChar(PrintInt(i)[0]);
      assert !NumberChar("true"[0]) && !NumberChar("false"[0]);
    case Bool(b) =>
  }

  lemma {:induction false} FindsEquals(k: string, rest: string, i: nat)
    requires '=' !in k && i <= |k|
    ensures RunEnd(k + (" =" + rest), i, NotEquals) == |k| + 1
    decreases |k| - i
  {
    var line := k + (" =" + rest);
    if i < |k| {
      assert line[i] == k[i] && k[i] in k;
      FindsEquals(k, rest, i + 1);
    } else {
      assert line[i] == ' ' && line[i + 1] == '=';
      assert RunEnd(line, i + 1, NotEquals) == i + 1;
    }
  }

  lemma IniLineBack(e: Entry)
    requires IniPrintable(e)
    ensures ParseIniLine(PrintIniLine(e)) == Pair(e.0, e.1)
  {
    hide IniValue, PrintIniValue, RunEnd;
    var k, v := e.0, PrintIniValue(e.1);
    var line := PrintIniLine(e);
    IniValueEnds(e.1);
    assert line == k + (" =" + (" " + v));
    assert line[0] == k[0] && line[|line| - 1] == v[|v| - 1];
    TrimNothing(line);
    FindsEquals(k, " " + v, 0);
    assert line[..|k| + 1] == k + " ";
    assert line[|k| + 2..] == " " + v;
    TrimBlanks(k);
    TrimBlanks(v);
    IniValueBack(e.1);
  }

  lemma IniLineHasNoNewline(e: Entry)
    requires IniPrintable(e)
    ensures '\n' !in PrintIniLine(e)
  {
    if e.1.Int? {
      var s := PrintInt(e.1.i);
      PrintedIntChars(e.1.i);
      forall i | 0 <= i < |s| ensures s[i] != '\n' {
        assert NumberChar(s[i]);
      }
    }
  }

  /** Printing entries as an INI file and parsing it gives the entries back. */
  lemma {:induction false} IniRoundTrip(m: map<string, PhpValue>, es: seq<Entry>)
    requires forall i :: 0 <= i < |es| ==> IniPrintable(es[i])
    ensures IniFrom(m, Split(PrintIni(es), '\n')) == Some(Inserted(m, es))
    decreases |es|
  {
    hide ParseIniLine, PrintIniLine, IniPrintable;
    if es == [] {
      EmptyLine();
      assert Split(PrintIni(es), '\n')[1..] == [];
    } else {
      var line := PrintIniLine(es[0]);
      IniLineHasNoNewline(es[0]);
      SplitWithout(line, '\n');
      SplitAround(line, '\n', PrintIni(es[1..]));
      var lines := Split(PrintIni(es), '\n');
      assert lines == [line] + Split(PrintIni(es[1..]), '\n');
      assert lines[1..] == Split(PrintIni(es[1..]), '\n');
      IniLineBack(es[0]);
      IniRoundTrip(m[es[0].0 := es[0].1], es[1..]);
    }
  }

  lemma EmptyLine()
    ensures ParseIniLine("") == Nothing
  {
  }

  // ----- manifests -----

  datatype Manifest = Manifest(name: string, title: string, identifier: string, icon: string,
                               author: string, version: string, admin: string, status: int, addonPath: string) {
    predicate IsEnabled() { status != 0 }
  }

  function AsString(v: PhpValue): string {
    match v
    case Str(s) => s
    case Int(i) => PrintInt(i)
    case Bool(b) => if b then "1" else ""
  }

  function AsInt(v: PhpValue): int {
    match v
    case Str(s) => if ParseI64(s).Some? then ParseI64(s).value else 0
    case Int(i) => i
    case Bool(b) => if b then 1 else 0
  }

  function GetString(info: map<string, PhpValue>, key: string): string {
    if key in info then AsString(info[key]) else ""
  }

  function GetInt(info: map<string, PhpValue>, key: string): int {
    if key in info then AsInt(info[key]) else 0
  }

  function BuildManifest(fallbackName: string, addonPath: string, info: map<string, PhpValue>): Manifest {
    var name := GetString(info, "name");
    Manifest(if name == "" then fallbackName else name,
             GetString(info, "title"), GetString(info, "identifier"), GetString(info, "icon"),
             GetString(info, "author"), GetString(info, "version"), GetString(info, "admin"),
             GetInt(info, "status"), addonPath)
  }

  /** What a text field takes from the entry of its key, if there is one. */
  ghost predicate IsText(info: map<string, PhpValue>, key: string, text: string) {
    && (key !in info ==> text == "")
    && (key in info && info[key] == Bool(true) ==> text == "1")
    && (key in info && info[key] == Bool(false) ==> text == "")
    && (key in info && info[key].Str? ==> info[key] == Str(text))
    && (key in info && info[key].Int? ==> text == PrintInt(info[key].i))
  }

  /** Each field of a manifest is read from its own entry, and what is absent is empty or zero. */
  lemma ManifestFields(dirName: string, path: string, info: map<string, PhpValue>)
    ensures
      var m := BuildManifest(dirName, path, info);
      && m.addonPath == path
      && (if IsText(info, "name", "") then m.name == dirName else IsText(info, "name", m.name))
      && IsText(info, "title", m.title) && IsText(info, "identifier", m.identifier) && IsText(info, "icon", m.icon)
      && IsText(info, "author", m.author) && IsText(info, "version", m.version) && IsText(info, "admin", m.admin)
  {
    hide PrintInt;
    forall key ensures IsText(info, key, GetString(info, key)) { }
  }

  /** The status is the number, the number that a string spells, or one for `true`, and otherwise zero. */
  lemma ManifestStatus(dirName: string, path: string, info: map<string, PhpValue>, n: int)
    ensures
      var key, m := "status", BuildManifest(dirName, path, info);
      && (key in info && info[key] == Int(n) ==> m.status == n)
      && (key in info && info[key] == Bool(true) ==> m.status == 1)
      && (key in info && info[key].Str? && ParseI64(info[key].s) == Some(n) ==> m.status == n)
      && (m.status != 0 ==> key in info && info[key] != Bool(false))
      && (m.status != 0 && info[key].Str? ==> ParseI64(info[key].s).Some?)
  {
  }

  /** What is found where a file is looked for. */
  datatype File = Missing | Unreadable | Content(text: string)

  datatype ManifestResult = Parsed(manifest: Manifest) | MissingPlugin | ReadFailed(fileName: string) | Malformed | Aborted

  /** Reads a plugin directory with its two files. The INI file is looked at only when the array of the
      other one has been parsed. */
  method ParseManifest(table: CharTable, dirName: string, path: string, plugin: File, ini: File)
    returns (r: ManifestResult)
    ensures r.MissingPlugin? <==> plugin.Missing?
    ensures plugin.Unreadable? ==> r == ReadFailed("Plugin.php")
    ensures r.Malformed? <==> plugin.Content? && ParseInfo(table, plugin.text).None?
    ensures plugin.Content? && ParseInfo(table, plugin.text).Some? ==>
      var info := ParseInfo(table, plugin.text).value;
      match ini
      case Missing => r == Parsed(BuildManifest(dirName, path, info))
      case Unreadable => r == ReadFailed("info.ini")
      case Content(text) =>
        var over := IniFrom(map[], Split(text, '\n'));
        r == if over.None? then Aborted else Parsed(BuildManifest(dirName, path, info + over.value))
  {
    hide ParseInfo, IniFrom, Split, BuildManifest;
    if plugin.Missing? { return MissingPlugin; }
    if plugin.Unreadable? { return ReadFailed("Plugin.php"); }
    var info := ParsePhpInfoArray(table, plugin.text);
    if info.None? { return Malformed; }
    var merged := info.value;
    if !ini.Missing? {
      if ini.Unreadable? { return ReadFailed("info.ini"); }
      var over := ParseSimpleIni(ini.text);
      if over.None? { return Aborted; }
      merged := InsertAll(info.value, over.value);
    }
    return Parsed(BuildManifest(dirName, path, merged));
  }

  /** Inserts the entries of `over` one by one, in any order. */
  method InsertAll(info: map<string, PhpValue>, over: map<string, PhpValue>) returns (merged: map<string, PhpValue>)
    ensures merged == info + over
  {
    merged := info;
    var keys := over.Keys;
    while keys != {}
      invariant keys <= over.Keys && merged.Keys == info.Keys + (over.Keys - keys)
      invariant forall k :: k in merged ==> merged[k] == if k in over && k !in keys then over[k] else info[k]
      decreases keys
    {
      var k :| k in keys;
      keys := keys - {k};
      merged := merged[k := over[k]];
    }
  }

  // ----- manifests round trip -----

  /** An integer keeps its value when it is given as a string, as an INI file in quotes does. */
  lemma StatusFromString(n: int)
    requires I64_MIN <= n <= I64_MAX
    ensures AsInt(Str(AsString(Int(n)))) == n
  {
    ParsePrintedInt(n);
  }

  function FieldsOf(m: Manifest): seq<Entry> {
    [("name", Str(m.name)), ("title", Str(m.title)), ("identifier", Str(m.identifier)), ("icon", Str(m.icon)),
     ("author", Str(m.author)), ("version", Str(m.version)), ("admin", Str(m.admin)), ("status", Int(m.status))]
  }

  lemma {:induction false} InsertedOver(m: map<string, PhpValue>, es: seq<Entry>)
    ensures Inserted(m, es) == m + Inserted(map[], es)
    decreases |es|
  {
    if es != [] {
      var e, empty: map<string, PhpValue> := es[0], map[];
      InsertedOver(m[e.0 := e.1], es[1..]);
      InsertedOver(empty[e.0 := e.1], es[1..]);
    }
  }

  lemma FieldsDistinct(m: Manifest)
    ensures forall i, j :: 0 <= i < j < 8 ==> FieldsOf(m)[i].0 != FieldsOf(m)[j].0
  {
    var es := FieldsOf(m);
    assert es[0].0 == "name" && es[1].0 == "title" && es[2].0 == "identifier" && es[3].0 == "icon";
    assert es[4].0 == "author" && es[5].0 == "version" && es[6].0 == "admin" && es[7].0 == "status";
    assert "name"[0] == 'n' && "title"[0] == 't' && "identifier"[1] == 'd' && "icon"[1] == 'c';
    assert "author"[1] == 'u' && "version"[0] == 'v' && "admin"[1] == 'd' && "status"[0] == 's';
    assert "identifier"[0] == 'i' && "icon"[0] == 'i' && "author"[0] == 'a' && "admin"[0] == 'a';
  }

  lemma FieldsBuild(m: Manifest, dirName: string)
    ensures BuildManifest(dirName, m.addonPath, Inserted(map[], FieldsOf(m)))
            == m.(name := if m.name == "" then dirName else m.name)
  {
    hide Inserted;
    var es := FieldsOf(m);
    FieldsDistinct(m);
    forall i | 0 <= i < 8 ensures es[i].0 in Inserted(map[], es) && Inserted(map[], es)[es[i].0] == es[i].1 {
      InsertedLooksUp(map[], es, i);
    }
    assert es[0].0 == "name" && es[1].0 == "title" && es[2].0 == "identifier" && es[3].0 == "icon";
    assert es[4].0 == "author" && es[5].0 == "version" && es[6].0 == "admin" && es[7].0 == "status";
  }

  /** A manifest written as a PHP `$info` array is read back from a directory without INI file: unchanged,
      except that an empty name becomes the directory's. */
  lemma ManifestRoundTrip(table: CharTable, m: Manifest, dirName: string, before: string, style: Style, after: string)
    requires IsQuote(style.quote) && FindInfo(before, 0).None?
    requires I64_MIN <= m.status <= I64_MAX
    ensures
      var info := ParseInfo(table, before + Print(FieldsOf(m), style) + after);
      info.Some? && BuildManifest(dirName, m.addonPath, info.value) == m.(name := if m.name == "" then dirName else m.name)
  {
    RoundTrip(table, before, FieldsOf(m), style, after);
    FieldsBuild(m, dirName);
  }

  /** Entries of the INI file override those of the array, key by key, and keep the others. */
  lemma IniOverridesInfo(table: CharTable, before: string, es: seq<Entry>, style: Style, after: string,
      over: seq<Entry>)
    requires IsQuote(style.quote) && FindInfo(before, 0).None? && forall e :: e in es ==> Printable(e.1)
    requires forall i :: 0 <= i < |over| ==> IniPrintable(over[i])
    ensures
      var info := ParseInfo(table, before + Print(es, style) + after);
      var ini := IniFrom(map[], Split(PrintIni(over), '\n'));
      info.Some? && ini.Some? && info.value + ini.value == Inserted(map[], es + over)
  {
    RoundTrip(table, before, es, style, after);
    IniRoundTrip(map[], over);
    InsertedOver(Inserted(map[], es), over);
    InsertedAll(map[], es, over);
  }

  lemma {:induction false} InsertedAll(m: map<string, PhpValue>, es: seq<Entry>, fs: seq<Entry>)
    ensures Inserted(m, es + fs) == Inserted(Inserted(m, es), fs)
    decreases |es|
  {
    if es == [] {
      assert es + fs == fs;
    } else {
      assert (es + fs)[1..] == es[1..] + fs;
      InsertedAll(m[es[0].0 := es[0].1], es[1..], fs);
    }
  }
}
