/** The lines of a configuration file: the printer and the reader of `confdata.c`. */
module ConfigFile {
  import opened Expr
  import opened Config

  const PREFIX := "CONFIG_"
  const NOT_SET := "is not set"

  /** A saved value: three-valued or text. */
  datatype Setting = TriSetting(tri: Tri) | TextSetting(text: string)

  datatype Entry = Entry(name: string, kind: SymbolType, value: Setting)

  /** What `conf_write` puts out: the symbols, and the titles of visible menus. */
  datatype Item = Symbol(e: Entry) | Title(text: string)

  // ----- the printer -----

  function Assignment(name: string, value: string): string {
    PREFIX + (name + "=" + (value + "\n"))
  }

  /** `conf_write_symbol` with `kconfig_print_symbol` */
  function PrintEntry(e: Entry): string {
    match (e.kind, e.value)
    case (BooleanType, TriSetting(t)) => PrintTri(e.name, t)
    case (TristateType, TriSetting(t)) => PrintTri(e.name, t)
    case (StringType, TextSetting(s)) => Assignment(e.name, Quoted(s))
    case (IntType, TextSetting(s)) => Assignment(e.name, s)
    case (HexType, TextSetting(s)) => Assignment(e.name, s)
    case _ => ""
  }

  function PrintTri(name: string, t: Tri): string {
    if t == 0 then "# " + (PREFIX + (name + " " + (NOT_SET + "\n"))) else Assignment(name, TriText(t))
  }

  function PrintItem(i: Item): string {
    match i
    case Symbol(e) => PrintEntry(e)
    case Title(t) => "\n" + "#\n" + ("# " + t + "\n") + "#\n"
  }

  function PrintAll(items: seq<Item>): string {
    if items == [] then "" else PrintItem(items[0]) + PrintAll(items[1..])
  }

  function CommentText(t: string): string { if t == "" then "#" else "# " + t }

  /** `kconfig_print_comment` */
  function PrintComment(p: string): string {
    var n := IndexOf(p, '\n');
    CommentText(p[..n]) + "\n" + (if n == |p| then "" else PrintComment(p[n + 1..]))
  }

  /** What `conf_write_heading` puts into its buffer. */
  function HeadingText(title: string): string {
    var t := "\nAutomatically generated file; DO NOT EDIT.\n" + title + "\n";
    if |t| > 255 then t[..255] else t
  }

  /** A whole file: the title of the main menu in the heading, then the items. */
  function PrintFile(title: string, items: seq<Item>): string {
    PrintComment(HeadingText(title)) + PrintAll(items)
  }

  // ----- the reader -----

  /** Index of the first c, or the length if there is none. */
  function IndexOf(s: string, c: char): (n: nat)
    ensures n <= |s| && c !in s[..n] && (n < |s| ==> s[n] == c)
  {
    if s == [] || s[0] == c then 0
    else
      var n := 1 + IndexOf(s[1..], c);
      assert s[..n] == [s[0]] + s[1..][..n - 1];
      n
  }

  /** `strchr`, cutting the text there: what stands before the first c and what after it. */
  function Cut(s: string, c: char): Option<(string, string)> {
    var n := IndexOf(s, c);
    if n == |s| then None else Some((s[..n], s[n + 1..]))
  }

  /** The lines of a text, each with its newline. */
  function Lines(text: string): seq<string> {
    var n := IndexOf(text, '\n');
    if text == [] then []
    else if n == |text| then [text]
    else [text[..n + 1]] + Lines(text[n + 1..])
  }

  predicate Digit(c: char) { '0' <= c <= '9' }

  predicate HexDigit(c: char) { Digit(c) || 'a' <= c <= 'f' || 'A' <= c <= 'F' }

  /** A number without its sign. */
  function Unsigned(s: string): string { if s != [] && s[0] == '-' then s[1..] else s }

  /** A number without the prefix 0x. */
  function Bare(s: string): string {
    if |s| >= 2 && s[0] == '0' && (s[1] == 'x' || s[1] == 'X') then s[2..] else s
  }

  /** `sym_string_valid` for int and hex symbols. */
  predicate ValidInt(s: string) {
    var d := Unsigned(s);
    d != [] && (forall i :: 0 <= i < |d| ==> Digit(d[i])) && (d[0] == '0' ==> |d| == 1)
  }

  predicate ValidHex(s: string) {
    var d := Bare(s);
    d != [] && forall i :: 0 <= i < |d| ==> HexDigit(d[i])
  }

  /** `conf_set_sym_val`: the setting, if the text is accepted. */
  function SetSymVal(kind: SymbolType, p: string): Option<Setting> {
    match kind
    case TristateType =>
      if p != [] && p[0] == 'm' then Some(TriSetting(1)) else SetBoolean(p)
    case BooleanType => SetBoolean(p)
    case StringType =>
      if p == [] || p[0] != '"' then None
      else
        var r := Unquote(p[1..]);
        if r.None? then None else Some(TextSetting(r.value))
    case IntType => if ValidInt(p) then Some(TextSetting(p)) else None
    case HexType => if ValidHex(p) then Some(TextSetting(p)) else None
    case _ => None
  }

  function SetBoolean(p: string): Option<Setting> {
    if p != [] && p[0] == 'y' then Some(TriSetting(2))
    else if p != [] && p[0] == 'n' then Some(TriSetting(0))
    else None
  }

  /** The text after the equals sign, without the line end. */
  function LineValue(p: string): string {
    var n := IndexOf(p, '\n');
    if n < |p| && n > 0 && p[n - 1] == '\r' then p[..n - 1] else p[..n]
  }

  type Symbols = map<string, SymbolType>
  type Settings = map<string, Setting>

  function ReadNotSet(symbols: Symbols, cut: Option<(string, string)>, def: Settings): Settings {
    if cut.Some? && NOT_SET <= cut.value.1 && cut.value.0 in symbols
       && (symbols[cut.value.0] == BooleanType || symbols[cut.value.0] == TristateType)
    then def[cut.value.0 := TriSetting(0)]
    else def
  }

  function ReadAssignment(symbols: Symbols, cut: Option<(string, string)>, def: Settings): Settings {
    if cut.None? || cut.value.0 !in symbols then def
    else
      var v := SetSymVal(symbols[cut.value.0], LineValue(cut.value.1));
      if v.Some? then def[cut.value.0 := v.value] else def
  }

  /** One round of the loop of `conf_read_simple`, for the user's values. */
  function ReadLine(symbols: Symbols, line: string, def: Settings): Settings {
    if line != [] && line[0] == '#' then
      if |line| < 2 || !(PREFIX <= line[2..]) then def
      else
        ReadNotSet(symbols, Cut(line[2 + |PREFIX|..], ' '), def)
    else if PREFIX <= line then
      ReadAssignment(symbols, Cut(line[|PREFIX|..], '='), def)
    else def
  }

  function ReadLines(symbols: Symbols, lines: seq<string>, def: Settings): Settings {
    if lines == [] then def else ReadLines(symbols, lines[1..], ReadLine(symbols, lines[0], def))
  }

  /** `conf_read_simple`, after `conf_reset`. */
  method ConfRead(symbols: Symbols, text: string) returns (def: Settings)
    ensures def == ReadLines(symbols, Lines(text), map[])
  {
    def := map[];
    var rest := text;
    while rest != []
      invariant ReadLines(symbols, Lines(text), map[]) == ReadLines(symbols, Lines(rest), def)
      decreases |rest|
    {
      var n := IndexOf(rest, '\n');
      var line := if n == |rest| then rest else rest[..n + 1];
      assert Lines(rest)[1..] == Lines(rest[|line|..]);
      def := ReadLine(symbols, line, def);
      rest := rest[|line|..];
    }
  }

  /** `conf_write_symbol`, or the title of a menu. */
  method WriteItem(i: Item) returns (text: string)
    ensures text == PrintItem(i)
  {
    match i {
      case Symbol(e) =>
        if e.kind == StringType && e.value.TextSetting? {
          var buf := EscapeStringValue(e.value.text);
          text := Assignment(e.name, buf[..buf.Length - 1]);
        } else {
          text := PrintEntry(e);
        }
      case Title(t) => text := PrintItem(i);
    }
  }

  method WriteComment(value: string) returns (text: string)
    ensures text == PrintComment(value)
  {
    text := "";
    var p := value;
    var l := IndexOf(p, '\n');
    while l < |p|
      invariant l == IndexOf(p, '\n') && PrintComment(value) == text + PrintComment(p)
      decreases |p|
    {
      PrintCommentStep(p, l);
      Associate(text, CommentText(p[..l]) + "\n", PrintComment(p[l + 1..]));
      text := text + (CommentText(p[..l]) + "\n");
      p := p[l + 1..];
      l := IndexOf(p, '\n');
    }
    text := text + (CommentText(p[..l]) + "\n");
  }

  lemma PrintCommentStep(p: string, n: nat)
    requires n == IndexOf(p, '\n') < |p|
    ensures PrintComment(p) == (CommentText(p[..n]) + "\n") + PrintComment(p[n + 1..])
  {}

  /** The heading, and the items in order. */
  method ConfWrite(title: string, items: seq<Item>) returns (text: string)
    ensures text == PrintFile(title, items)
  {
    text := WriteComment(HeadingText(title));
    ghost var heading := text;
    for i := 0 to |items|
      invariant text + PrintAll(items[i..]) == heading + PrintAll(items)
    {
      PrintAllStep(items, i, text);
      var item := WriteItem(items[i]);
      text := text + item;
    }
  }

  lemma PrintAllStep(items: seq<Item>, i: nat, text: string)
    requires i < |items|
    ensures text + PrintAll(items[i..]) == text + PrintItem(items[i]) + PrintAll(items[i + 1..])
  {
    assert items[i..][1..] == items[i + 1..];
  }

  lemma {:induction false} UnquoteNoNul(s: string)
    requires Free(s, '\0') && Unquote(s).Some?
    ensures Free(Unquote(s).value, '\0')
  {
    if s != [] && s[0] != '"' {
      UnquoteNoNul(if s[0] == '\\' then s[2..] else s[1..]);
    }
  }

  /** The string case of `conf_set_sym_val` on the line buffer: the value is unquoted in place
      and copied up to its terminator. */
  method SetString(buf: array<char>, p: nat, ghost n: nat) returns (r: Option<Setting>)
    requires Terminated(buf, p, n)
    modifies buf
    ensures r == SetSymVal(StringType, old(buf[p..n]))
  {
    ghost var s := buf[p..n];
    assert s != [] ==> buf[p] == s[0];
    if buf[p] != '"' {
      return None;
    }
    assert buf[p + 1..n] == s[1..];
    var found := UnquoteInPlace(buf, p + 1, n);
    if !found {
      return None;
    }
    ghost var v := Unquote(s[1..]).value;
    UnquoteNoNul(s[1..]);
    var text := TextAt(buf, p + 1, v);
    r := Some(TextSetting(text));
  }

  /** The text in a buffer up to its terminator. */
  method TextAt(buf: array<char>, p: nat, ghost v: string) returns (text: string)
    requires p + |v| < buf.Length && buf[p..p + |v|] == v && buf[p + |v|] == '\0' && Free(v, '\0')
    ensures text == v
  {
    assert forall i :: 0 <= i < |v| ==> v[i] in v && buf[p..p + |v|][i] != '\0';
    var q := p;
    while buf[q] != '\0'
      invariant p <= q <= p + |v|
      invariant q < p + |v| ==> buf[q] == v[q - p]
      decreases p + |v| - q
    {
      assert q + 1 < p + |v| ==> buf[q + 1] == buf[p..p + |v|][q + 1 - p];
      q := q + 1;
    }
    text := buf[p..q];
  }

  predicate Free(s: string, c: char) { c !in s }

  // ----- the round trip -----

  /** Names as the configuration language allows them. */
  predicate ValidName(s: string) { Free(s, ' ') && Free(s, '=') && Free(s, '\n') }

  /** A value of the right sort, of one line. The text of an int or hex symbol need not be a number:
      without a default and a user's value it is empty. */
  predicate ValidEntry(e: Entry) {
    && ValidName(e.name)
    && match (e.kind, e.value)
       case (BooleanType, TriSetting(t)) => t != 1
       case (TristateType, TriSetting(t)) => true
       case (StringType, TextSetting(s)) => Free(s, '\n')
       case (IntType, TextSetting(s)) => Free(s, '\n')
       case (HexType, TextSetting(s)) => Free(s, '\n')
       case _ => false
  }

  /** Without a carriage return at the end. */
  function Chomped(s: string): string {
    if s != [] && s[|s| - 1] == '\r' then s[..|s| - 1] else s
  }

  /** What reading the line of an entry sets its symbol to. */
  function EntryValue(e: Entry): Option<Setting> {
    if e.value.TextSetting? && e.kind != StringType then SetSymVal(e.kind, Chomped(e.value.text)) else Some(e.value)
  }

  /** The numbers are valid ones. */
  predicate ComesBack(e: Entry) {
    match (e.kind, e.value)
    case (IntType, TextSetting(s)) => ValidInt(s)
    case (HexType, TextSetting(s)) => ValidHex(s)
    case _ => true
  }

  function Assigned(name: string, v: Option<Setting>, def: Settings): Settings {
    if v.Some? then def[name := v.value] else def
  }

  /** A line of text that the reader takes for a symbol that is not set. */
  predicate Spoofs(symbols: Symbols, t: string) {
    PREFIX <= t &&
    var cut := Cut(t[|PREFIX|..], ' ');
    && cut.Some? && NOT_SET <= cut.value.1 && cut.value.0 in symbols
    && (symbols[cut.value.0] == BooleanType || symbols[cut.value.0] == TristateType)
  }

  /** The symbol that such a line spells. */
  function Spoofed(symbols: Symbols, t: string): string
    requires Spoofs(symbols, t)
  {
    Cut(t[|PREFIX|..], ' ').value.0
  }

  /** The settings after a line of text. */
  function Noted(symbols: Symbols, t: string, def: Settings): Settings {
    if Spoofs(symbols, t) then def[Spoofed(symbols, t) := TriSetting(0)] else def
  }

  /** Symbols of the table with valid values, and titles of one line. */
  ghost predicate ValidItems(symbols: Symbols, items: seq<Item>) {
    forall i :: 0 <= i < |items| ==>
      match items[i]
      case Symbol(e) => ValidEntry(e) && e.name in symbols && symbols[e.name] == e.kind
      case Title(t) => Free(t, '\n')
  }

  /** The lines of a comment. */
  function CommentItems(p: string): seq<Item> {
    var n := IndexOf(p, '\n');
    [Title(p[..n])] + (if n == |p| then [] else CommentItems(p[n + 1..]))
  }

  /** All that a file shows: the lines of its heading, then the items. */
  function FileItems(title: string, items: seq<Item>): seq<Item> { CommentItems(HeadingText(title)) + items }

  /** The settings after an item. */
  function After(symbols: Symbols, item: Item, def: Settings): Settings {
    match item
    case Symbol(e) => Assigned(e.name, EntryValue(e), def)
    case Title(t) => Noted(symbols, t, def)
  }

  /** The printed settings, later ones last. */
  function Saved(symbols: Symbols, items: seq<Item>, def: Settings): Settings {
    if items == [] then def else Saved(symbols, items[1..], After(symbols, items[0], def))
  }

  lemma {:induction false} IndexOfAt(a: string, c: char, b: string)
    requires Free(a, c)
    ensures IndexOf(a + [c] + b, c) == |a|
  {
    var s := a + [c] + b;
    if a != [] {
      assert s[1..] == a[1..] + [c] + b;
      IndexOfAt(a[1..], c, b);
    }
  }

  lemma CutAt(a: string, c: char, b: string)
    requires Free(a, c)
    ensures Cut(a + [c] + b, c) == Some((a, b))
  {
    IndexOfAt(a, c, b);
    var s := a + [c] + b;
    assert s[..|a|] == a && s[|a| + 1..] == b;
  }

  lemma LinesStep(line: string, rest: string)
    requires Free(line, '\n')
    ensures Lines(line + "\n" + rest) == [line + "\n"] + Lines(rest)
  {
    IndexOfAt(line, '\n', rest);
    var t := line + "\n" + rest;
    assert t[..|line| + 1] == line + "\n" && t[|line| + 1..] == rest;
  }

  lemma {:induction false} EscapeFree(s: string)
    requires Free(s, '\n')
    ensures Free(EscapeBody(s), '\n')
  {
    if s != [] { EscapeFree(s[1..]); }
  }

  lemma AfterPrefix(a: string, b: string)
    ensures a <= a + b && (a + b)[|a|..] == b
  {}

  /** An assignment line is taken apart as it was put together, but for a carriage return. */
  lemma AssignmentRead(symbols: Symbols, name: string, value: string, def: Settings)
    requires ValidName(name) && Free(value, '\n') && name in symbols
    ensures ReadLine(symbols, Assignment(name, value), def)
            == Assigned(name, SetSymVal(symbols[name], Chomped(value)), def)
  {
    AfterPrefix(PREFIX, name + "=" + (value + "\n"));
    CutAt(name, '=', value + "\n");
    ValueAlone(value);
  }

  predicate Starts(s: string, c: char) { s != [] && s[0] == c }

  /** What an assignment sets, also one that is never printed: only the first character counts for a bool
      or tristate symbol, and a number must be a valid one. */
  lemma AssignmentSets(symbols: Symbols, name: string, v: string, def: Settings)
    requires ValidName(name) && Free(v, '\n')
    ensures var r := ReadLine(symbols, "CONFIG_" + (name + "=" + (v + "\n")), def);
            if name !in symbols then r == def
            else match symbols[name]
                 case BooleanType =>
                   r == if Starts(v, 'y') then def[name := TriSetting(2)]
                        else if Starts(v, 'n') then def[name := TriSetting(0)] else def
                 case TristateType =>
                   r == if Starts(v, 'y') then def[name := TriSetting(2)]
                        else if Starts(v, 'm') then def[name := TriSetting(1)]
                        else if Starts(v, 'n') then def[name := TriSetting(0)] else def
                 case IntType => r == if ValidInt(Chomped(v)) then def[name := TextSetting(Chomped(v))] else def
                 case HexType => r == if ValidHex(Chomped(v)) then def[name := TextSetting(Chomped(v))] else def
                 case StringType => !Starts(v, '"') ==> r == def
                 case _ => r == def
  {
    if name in symbols {
      AssignmentRead(symbols, name, v, def);
    } else {
      AfterPrefix(PREFIX, name + "=" + (v + "\n"));
      CutAt(name, '=', v + "\n");
    }
  }

  lemma AssignmentIs(name: string, v: string, end: string)
    requires end == "=" + v + "\n"
    ensures Assignment(name, v) == "CONFIG_" + name + end
  {}

  lemma NotSetIs(name: string, start: string, end: string)
    requires start == "# " + "CONFIG_" && end == " " + "is not set" + "\n"
    ensures PrintTri(name, 0) == start + name + end
  {}

  /** How a symbol is printed. */
  lemma PrintedTri(name: string, t: Tri)
    ensures PrintEntry(Entry(name, BooleanType, TriSetting(t))) == PrintEntry(Entry(name, TristateType, TriSetting(t)))
    ensures PrintEntry(Entry(name, TristateType, TriSetting(t)))
         == if t == 0 then "# CONFIG_" + name + " is not set\n"
            else "CONFIG_" + name + (if t == 1 then "=m\n" else "=y\n")
  {
    if t == 0 {
      NotSetIs(name, "# CONFIG_", " is not set\n");
    } else if t == 1 {
      AssignmentIs(name, "m", "=m\n");
    } else {
      AssignmentIs(name, "y", "=y\n");
    }
  }

  lemma PrintedText(name: string, s: string)
    ensures PrintEntry(Entry(name, IntType, TextSetting(s))) == "CONFIG_" + name + "=" + s + "\n"
    ensures PrintEntry(Entry(name, HexType, TextSetting(s))) == "CONFIG_" + name + "=" + s + "\n"
    ensures PrintEntry(Entry(name, StringType, TextSetting(s)))
            == "CONFIG_" + name + "=\"" + EscapeBody(s) + "\"\n"
  {
    assert "CONFIG_" + name + "=\"" + EscapeBody(s) + "\"\n"
        == "CONFIG_" + (name + "=" + (("\"" + EscapeBody(s) + "\"") + "\n"));
  }

  lemma ValueAlone(value: string)
    requires Free(value, '\n')
    ensures LineValue(value + "\n") == Chomped(value)
  {
    var p := value + "\n";
    assert p == value + ['\n'] + "";
    IndexOfAt(value, '\n', "");
    assert p[..|value|] == value;
    assert value != [] ==> p[..|value| - 1] == value[..|value| - 1];
  }

  lemma NotSetRead(symbols: Symbols, name: string, def: Settings)
    requires ValidName(name) && name in symbols
    requires symbols[name] == BooleanType || symbols[name] == TristateType
    ensures ReadLine(symbols, PrintTri(name, 0), def) == def[name := TriSetting(0)]
  {
    var p := name + " " + (NOT_SET + "\n");
    AfterPrefix("# ", PREFIX + p);
    AfterPrefix(PREFIX, p);
    assert PrintTri(name, 0)[2 + |PREFIX|..] == PrintTri(name, 0)[2..][|PREFIX|..];
    CutAt(name, ' ', NOT_SET + "\n");
  }

  lemma NumberChars(kind: SymbolType, s: string)
    requires (kind == IntType && ValidInt(s)) || (kind == HexType && ValidHex(s))
    ensures s != [] && s[|s| - 1] != '\r'
  {
    var d := if kind == IntType then Unsigned(s) else Bare(s);
    assert HexDigit(d[|d| - 1]) && s[|s| - 1] == d[|d| - 1];
  }

  /** An entry comes back exactly if it is no int or hex symbol, or its text is a valid number. */
  lemma EntryComesBack(e: Entry)
    requires ValidEntry(e)
    ensures EntryValue(e) == Some(e.value) <==> ComesBack(e)
  {
    if e.kind == IntType || e.kind == HexType {
      if ComesBack(e) { NumberChars(e.kind, e.value.text); }
    }
  }

  lemma StringRead(symbols: Symbols, name: string, s: string, def: Settings)
    requires ValidName(name) && name in symbols && symbols[name] == StringType && Free(s, '\n')
    ensures ReadLine(symbols, Assignment(name, Quoted(s)), def) == def[name := TextSetting(s)]
  {
    EscapeFree(s);
    AssignmentRead(symbols, name, Quoted(s), def);
    UnquoteQuoted(s, "");
    assert Quoted(s)[1..] == EscapeBody(s) + ['"'] + "";
  }

  lemma TriRead(symbols: Symbols, name: string, t: Tri, def: Settings)
    requires ValidName(name) && name in symbols
    requires symbols[name] == TristateType || (symbols[name] == BooleanType && t != 1)
    ensures ReadLine(symbols, PrintTri(name, t), def) == def[name := TriSetting(t)]
  {
    if t == 0 { NotSetRead(symbols, name, def); } else { AssignmentRead(symbols, name, TriText(t), def); }
  }

  /** Reading the line of an entry gives back its value, unless that should be a number and is not. */
  lemma EntryRead(symbols: Symbols, e: Entry, def: Settings)
    requires ValidEntry(e) && e.name in symbols && symbols[e.name] == e.kind
    ensures ReadLine(symbols, PrintEntry(e), def) == Assigned(e.name, EntryValue(e), def)
    ensures EntryValue(e) == Some(e.value) <==> ComesBack(e)
  {
    EntryComesBack(e);
    match e.value {
      case TriSetting(t) => TriRead(symbols, e.name, t, def);
      case TextSetting(s) =>
        if e.kind == StringType {
          StringRead(symbols, e.name, s, def);
        } else {
          AssignmentRead(symbols, e.name, s, def);
        }
    }
  }

  /** The line of a number without a value sets nothing. */
  lemma EmptyNumber(symbols: Symbols, name: string, kind: SymbolType, def: Settings)
    requires ValidName(name) && name in symbols && symbols[name] == kind && (kind == IntType || kind == HexType)
    ensures ReadLine(symbols, PrintEntry(Entry(name, kind, TextSetting(""))), def) == def
  {
    EntryRead(symbols, Entry(name, kind, TextSetting("")), def);
  }

  /** The line of an entry, without its newline. */
  function EntryBody(e: Entry): string {
    match e.value
    case TriSetting(t) =>
      if t == 0 then "# " + PREFIX + e.name + " " + NOT_SET else PREFIX + e.name + "=" + TriText(t)
    case TextSetting(s) =>
      PREFIX + e.name + "=" + (if e.kind == StringType then Quoted(s) else s)
  }

  /** An entry is printed as one line. */
  lemma EntryIsLine(e: Entry)
    requires ValidEntry(e)
    ensures PrintEntry(e) == EntryBody(e) + "\n" && Free(EntryBody(e), '\n')
  {
    match e.value {
      case TriSetting(t) =>
      case TextSetting(s) =>
        if e.kind == StringType { EscapeFree(s); }
    }
  }

  lemma ReadLinesStep(symbols: Symbols, line: string, rest: string, def: Settings)
    requires Free(line, '\n')
    ensures ReadLines(symbols, Lines(line + "\n" + rest), def)
            == ReadLines(symbols, Lines(rest), ReadLine(symbols, line + "\n", def))
  {
    LinesStep(line, rest);
  }

  lemma {:induction false} IndexOfMore(u: string, c: char, d: char)
    requires c != d
    ensures IndexOf(u + [d], c) == if c in u then IndexOf(u, c) else |u| + 1
    ensures c in u <==> IndexOf(u, c) < |u|
  {
    if u != [] {
      IndexOfMore(u[1..], c, d);
      assert (u + [d])[1..] == u[1..] + [d];
      assert u == [u[0]] + u[1..];
    }
  }

  /** The newline at the end does not matter to `strchr`. */
  lemma CutMore(u: string)
    ensures Cut(u, ' ').None? ==> Cut(u + "\n", ' ').None?
    ensures Cut(u, ' ').Some? ==> Cut(u + "\n", ' ') == Some((Cut(u, ' ').value.0, Cut(u, ' ').value.1 + "\n"))
  {
    IndexOfMore(u, ' ', '\n');
    var n := IndexOf(u, ' ');
    if n < |u| {
      assert (u + "\n")[..n] == u[..n] && (u + "\n")[n + 1..] == u[n + 1..] + "\n";
    }
  }

  lemma PrefixMore(p: string, t: string)
    requires Free(p, '\n')
    ensures p <= t + "\n" <==> p <= t
  {
    assert (t + "\n")[..|t|] == t;
    assert |t| < |p| ==> p[|t|] != (t + "\n")[|t|];
  }

  lemma NotSetMore(symbols: Symbols, v: string, def: Settings)
    ensures ReadNotSet(symbols, Cut(v + "\n", ' '), def) == ReadNotSet(symbols, Cut(v, ' '), def)
  {
    CutMore(v);
    if Cut(v, ' ').Some? { PrefixMore(NOT_SET, Cut(v, ' ').value.1); }
  }

  /** Reading a line of a title or of the heading. */
  lemma TitleLine(symbols: Symbols, t: string, def: Settings)
    requires Free(t, '\n')
    ensures ReadLine(symbols, "# " + t + "\n", def) == Noted(symbols, t, def)
  {
    var l := "# " + t + "\n";
    assert l[0] == '#' && l[2..] == t + "\n";
    PrefixMore(PREFIX, t);
    if PREFIX <= t {
      var v := t[|PREFIX|..];
      assert l[2 + |PREFIX|..] == v + "\n";
      NotSetMore(symbols, v, def);
    }
  }

  /** A title sets nothing, whatever was set before, if and only if it does not spell, behind
      the prefix, a bool or tristate symbol up to the first space and then "is not set". */
  lemma TitleHarmless(symbols: Symbols, t: string)
    requires Free(t, '\n')
    ensures (forall def :: ReadLine(symbols, "# " + t + "\n", def) == def) <==> !Spoofs(symbols, t)
  {
    forall def ensures ReadLine(symbols, "# " + t + "\n", def) == Noted(symbols, t, def) {
      TitleLine(symbols, t, def);
    }
    var def: Settings := map[];
    assert Spoofs(symbols, t) ==> Noted(symbols, t, def) != def by {
      if Spoofs(symbols, t) { assert Spoofed(symbols, t) in Noted(symbols, t, def); }
    }
  }

  /** Of the four lines of a title only the one with the text can set something. */
  lemma TitleRead(symbols: Symbols, t: string, rest: string, def: Settings)
    requires Free(t, '\n')
    ensures ReadLines(symbols, Lines(PrintItem(Title(t)) + rest), def)
            == ReadLines(symbols, Lines(rest), Noted(symbols, t, def))
  {
    var r3 := "#" + "\n" + rest;
    var r2 := "# " + t + "\n" + r3;
    var r1 := "#" + "\n" + r2;
    assert PrintItem(Title(t)) + rest == "" + "\n" + r1;
    ReadLinesStep(symbols, "", r1, def);
    ReadLinesStep(symbols, "#", r2, def);
    TitleLine(symbols, t, def);
    ReadLinesStep(symbols, "# " + t, r3, def);
    ReadLinesStep(symbols, "#", rest, Noted(symbols, t, def));
  }

  lemma CommentLine(symbols: Symbols, t: string, def: Settings)
    requires Free(t, '\n')
    ensures Free(CommentText(t), '\n') && ReadLine(symbols, CommentText(t) + "\n", def) == Noted(symbols, t, def)
  {
    if t != "" { TitleLine(symbols, t, def); }
  }

  /** What a comment prints behind its first line. */
  function CommentTail(p: string): string {
    var n := IndexOf(p, '\n');
    if n == |p| then "" else PrintComment(p[n + 1..])
  }

  lemma CommentFirst(symbols: Symbols, p: string, rest: string, def: Settings)
    ensures ReadLines(symbols, Lines(PrintComment(p) + rest), def)
            == ReadLines(symbols, Lines(CommentTail(p) + rest), Noted(symbols, p[..IndexOf(p, '\n')], def))
  {
    var t := p[..IndexOf(p, '\n')];
    CommentLine(symbols, t, def);
    Associate(CommentText(t) + "\n", CommentTail(p), rest);
    ReadLinesStep(symbols, CommentText(t), CommentTail(p) + rest, def);
  }

  /** Reading a comment sets what its lines spell. */
  lemma {:induction false} CommentRead(symbols: Symbols, p: string, rest: string, def: Settings)
    ensures ReadLines(symbols, Lines(PrintComment(p) + rest), def)
            == ReadLines(symbols, Lines(rest), Saved(symbols, CommentItems(p), def))
  {
    var n := IndexOf(p, '\n');
    CommentFirst(symbols, p, rest, def);
    SavedStep(symbols, Title(p[..n]), if n == |p| then [] else CommentItems(p[n + 1..]), def);
    if n == |p| {
      assert "" + rest == rest;
    } else {
      CommentRead(symbols, p[n + 1..], rest, Noted(symbols, p[..n], def));
    }
  }

  lemma SavedStep(symbols: Symbols, item: Item, items: seq<Item>, def: Settings)
    ensures Saved(symbols, [item] + items, def) == Saved(symbols, items, After(symbols, item, def))
  {
    assert ([item] + items)[1..] == items;
  }

  lemma {:induction false} SavedJoin(symbols: Symbols, x: seq<Item>, y: seq<Item>, def: Settings)
    ensures Saved(symbols, x + y, def) == Saved(symbols, y, Saved(symbols, x, def))
  {
    if x == [] {
      assert x + y == y;
    } else {
      assert (x + y)[1..] == x[1..] + y;
      SavedJoin(symbols, x[1..], y, After(symbols, x[0], def));
    }
  }

  /** Reading what was printed gives the printed values, with whatever titles spell. */
  lemma {:induction false} PrintedIsRead(symbols: Symbols, items: seq<Item>, def: Settings)
    requires ValidItems(symbols, items)
    ensures ReadLines(symbols, Lines(PrintAll(items)), def) == Saved(symbols, items, def)
  {
    if items != [] {
      var rest := PrintAll(items[1..]);
      PrintedIsRead(symbols, items[1..], After(symbols, items[0], def));
      match items[0] {
        case Symbol(e) =>
          EntryIsLine(e);
          EntryRead(symbols, e, def);
          ReadLinesStep(symbols, EntryBody(e), rest, def);
        case Title(t) =>
          TitleRead(symbols, t, rest, def);
      }
    }
  }

  ghost predicate DistinctNames(items: seq<Item>) {
    forall i, j :: 0 <= i < j < |items| && items[i].Symbol? && items[j].Symbol? ==>
      items[i].e.name != items[j].e.name
  }

  /** Reading a whole file. */
  lemma FileIsRead(symbols: Symbols, title: string, items: seq<Item>, def: Settings)
    requires ValidItems(symbols, items)
    ensures ReadLines(symbols, Lines(PrintFile(title, items)), def) == Saved(symbols, FileItems(title, items), def)
  {
    var heading := CommentItems(HeadingText(title));
    CommentRead(symbols, HeadingText(title), PrintAll(items), def);
    PrintedIsRead(symbols, items, Saved(symbols, heading, def));
    SavedJoin(symbols, heading, items, def);
  }

  // ----- when the round trip succeeds -----

  /** What an item sets a symbol to. */
  function Effect(symbols: Symbols, item: Item, name: string): Option<Setting> {
    match item
    case Symbol(e) => if e.name == name then EntryValue(e) else None
    case Title(t) => if Spoofs(symbols, t) && Spoofed(symbols, t) == name then Some(TriSetting(0)) else None
  }

  ghost predicate LastEffect(symbols: Symbols, items: seq<Item>, name: string, i: int) {
    && 0 <= i < |items| && Effect(symbols, items[i], name).Some?
    && forall j :: i < j < |items| ==> Effect(symbols, items[j], name) == None
  }

  /** The last item that sets a symbol decides. */
  lemma {:induction false} SavedIsLast(symbols: Symbols, items: seq<Item>, def: Settings, name: string) returns (i: int)
    ensures i >= 0 ==> LastEffect(symbols, items, name, i) && name in Saved(symbols, items, def)
                       && Saved(symbols, items, def)[name] == Effect(symbols, items[i], name).value
    ensures i < 0 ==> (forall j :: 0 <= j < |items| ==> Effect(symbols, items[j], name) == None)
                      && (name in Saved(symbols, items, def) <==> name in def)
                      && (name in def ==> Saved(symbols, items, def)[name] == def[name])
  {
    if items == [] {
      i := -1;
    } else {
      i := SavedIsLast(symbols, items[1..], After(symbols, items[0], def), name);
      assert forall j :: 0 < j < |items| ==> items[j] == items[1..][j - 1];
      i := if i >= 0 then i + 1 else if Effect(symbols, items[0], name).Some? then 0 else -1;
    }
  }

  /** Every shown symbol has its value, and no other symbol has one. */
  ghost predicate Restored(items: seq<Item>, def: Settings) {
    && (forall i :: 0 <= i < |items| && items[i].Symbol? ==> Has(def, items[i].e))
    && (forall name :: name in def ==> exists i :: 0 <= i < |items| && items[i].Symbol? && items[i].e.name == name)
  }

  predicate Has(def: Settings, e: Entry) { e.name in def && def[e.name] == e.value }

  /** Each title that spells a symbol does no harm: that symbol is printed behind it, or is n. */
  ghost predicate Undone(symbols: Symbols, items: seq<Item>) {
    forall i :: 0 <= i < |items| && items[i].Title? && Spoofs(symbols, items[i].text) ==>
      exists k :: UndoneBy(items, i, Spoofed(symbols, items[i].text), k)
  }

  predicate UndoneBy(items: seq<Item>, i: int, name: string, k: int) {
    0 <= k < |items| && items[k].Symbol? && items[k].e.name == name && (k > i || items[k].e.value == TriSetting(0))
  }

  /** The line of every symbol gives its value back. */
  ghost predicate AllReturn(items: seq<Item>) {
    forall i :: 0 <= i < |items| && items[i].Symbol? ==> Returns(items[i].e)
  }

  ghost predicate TrisReturn(items: seq<Item>) {
    forall i :: 0 <= i < |items| && items[i].Symbol? && items[i].e.value.TriSetting? ==> Returns(items[i].e)
  }

  predicate Returns(e: Entry) { EntryValue(e) == Some(e.value) }

  lemma UndoneRestored(symbols: Symbols, items: seq<Item>)
    requires DistinctNames(items) && Undone(symbols, items) && AllReturn(items)
    ensures Restored(items, Saved(symbols, items, map[]))
  {
    var def := Saved(symbols, items, map[]);
    forall k | 0 <= k < |items| && items[k].Symbol? ensures Has(def, items[k].e) {
      var name := items[k].e.name;
      var i := SavedIsLast(symbols, items, map[], name);
      assert Returns(items[k].e) && Effect(symbols, items[k], name) == Some(items[k].e.value);
      if items[i].Title? {
        var k' :| UndoneBy(items, i, name, k');
        assert k' == k;
      }
    }
    forall name | name in def
      ensures exists i :: 0 <= i < |items| && items[i].Symbol? && items[i].e.name == name
    {
      var i := SavedIsLast(symbols, items, map[], name);
      if items[i].Title? {
        var k :| UndoneBy(items, i, name, k);
      }
    }
  }

  lemma RestoredReturns(symbols: Symbols, items: seq<Item>)
    requires DistinctNames(items) && Restored(items, Saved(symbols, items, map[]))
    requires TrisReturn(items)
    ensures AllReturn(items)
  {
    forall k | 0 <= k < |items| && items[k].Symbol? ensures Returns(items[k].e) {
      assert Has(Saved(symbols, items, map[]), items[k].e);
      var i := SavedIsLast(symbols, items, map[], items[k].e.name);
      assert items[i].Symbol? ==> i == k;
    }
  }

  lemma RestoredUndone(symbols: Symbols, items: seq<Item>)
    requires DistinctNames(items) && Restored(items, Saved(symbols, items, map[])) && AllReturn(items)
    ensures Undone(symbols, items)
  {
    var def := Saved(symbols, items, map[]);
    forall i | 0 <= i < |items| && items[i].Title? && Spoofs(symbols, items[i].text)
      ensures exists k :: UndoneBy(items, i, Spoofed(symbols, items[i].text), k)
    {
      var name := Spoofed(symbols, items[i].text);
      var j := SavedIsLast(symbols, items, map[], name);
      assert Effect(symbols, items[i], name).Some?;
      var k :| 0 <= k < |items| && items[k].Symbol? && items[k].e.name == name;
      assert Has(def, items[k].e) && Returns(items[k].e);
      UndoneAt(symbols, items, i, j, k, name);
    }
  }

  /** If a title spells a symbol and that still has its value, the title is undone by it. */
  lemma UndoneAt(symbols: Symbols, items: seq<Item>, i: int, j: int, k: int, name: string)
    requires DistinctNames(items) && LastEffect(symbols, items, name, j)
    requires 0 <= i < |items| && items[i].Title? && Effect(symbols, items[i], name).Some?
    requires 0 <= k < |items| && items[k].Symbol? && items[k].e.name == name && Returns(items[k].e)
    requires Effect(symbols, items[j], name).value == items[k].e.value
    ensures UndoneBy(items, i, name, k)
  {
    assert Effect(symbols, items[k], name).Some? && i <= j && k <= j;
    assert items[j].Symbol? ==> j == k;
  }

  ghost predicate NumbersValid(items: seq<Item>) {
    forall i :: 0 <= i < |items| && items[i].Symbol? ==> ComesBack(items[i].e)
  }

  /** Round trip: reading a printed file restores the value of every printed symbol, and sets no
      other, if and only if the texts of all int and hex symbols are valid numbers, and each title
      that spells a symbol - the heading included - is undone. */
  lemma RoundTrip(symbols: Symbols, title: string, items: seq<Item>)
    requires ValidItems(symbols, items) && DistinctNames(items)
    ensures var all := FileItems(title, items);
            Restored(all, ReadLines(symbols, Lines(PrintFile(title, items)), map[]))
            <==> NumbersValid(items) && Undone(symbols, all)
  {
    var all := FileItems(title, items);
    FileIsRead(symbols, title, items, map[]);
    CommentItemsAreTitles(HeadingText(title));
    assert DistinctNames(all);
    NumbersReturn(symbols, CommentItems(HeadingText(title)), items);
    if NumbersValid(items) && Undone(symbols, all) { UndoneRestored(symbols, all); }
    if Restored(all, Saved(symbols, all, map[])) {
      RestoredReturns(symbols, all);
      RestoredUndone(symbols, all);
    }
  }

  lemma NumbersReturn(symbols: Symbols, heading: seq<Item>, items: seq<Item>)
    requires ValidItems(symbols, items) && forall i :: 0 <= i < |heading| ==> heading[i].Title?
    ensures NumbersValid(items) <==> AllReturn(heading + items)
    ensures TrisReturn(heading + items)
  {
    var all := heading + items;
    forall i | 0 <= i < |items| && items[i].Symbol? ensures Returns(items[i].e) <==> ComesBack(items[i].e) {
      EntryComesBack(items[i].e);
    }
    forall i | 0 <= i < |items| ensures items[i] == all[|heading| + i] {}
    forall i | 0 <= i < |all| && all[i].Symbol? ensures i >= |heading| && all[i] == items[i - |heading|] {}
  }

  lemma {:induction false} CommentItemsAreTitles(p: string)
    ensures forall i :: 0 <= i < |CommentItems(p)| ==> CommentItems(p)[i].Title?
  {
    var n := IndexOf(p, '\n');
    if n < |p| { CommentItemsAreTitles(p[n + 1..]); }
  }

  /** A title that spells an unset symbol is read as one. */
  lemma TitleSpoofs(symbols: Symbols, name: string, tail: string)
    requires ValidName(name) && name in symbols
    requires symbols[name] == BooleanType || symbols[name] == TristateType
    ensures Spoofs(symbols, PREFIX + (name + [' '] + (NOT_SET + tail)))
  {
    AfterPrefix(PREFIX, name + [' '] + (NOT_SET + tail));
    CutAt(name, ' ', NOT_SET + tail);
  }
}
