/**
  The systemd unit file: printing it, reading its identity back, and deciding what a
  (re)install writes. Linux only, where a path is absolute when it starts with a slash.
 */
module UnitFile {
  // ---- Trimming and splitting, as Go's strings package does it ----------------------------

  type Class = char -> bool

  /** unicode.IsSpace. */
  predicate IsSpace(c: char) {
    || c == '\t' || c == '\n' || c == '\U{000B}' || c == '\U{000C}' || c == '\r' || c == ' '
    || c == '\U{0085}' || c == '\U{00A0}' || c == '\U{1680}' || '\U{2000}' <= c <= '\U{200A}'
    || c == '\U{2028}' || c == '\U{2029}' || c == '\U{202F}' || c == '\U{205F}' || c == '\U{3000}'
  }

  predicate IsQuote(c: char) {
    c == '"' || c == '\''
  }

  function TrimLeft(s: string, p: Class): string {
    if s != "" && p(s[0]) then TrimLeft(s[1..], p) else s
  }

  function TrimRight(s: string, p: Class): string {
    if s != "" && p(s[|s| - 1]) then TrimRight(s[..|s| - 1], p) else s
  }

  function Trim(s: string, p: Class): string {
    TrimRight(TrimLeft(s, p), p)
  }

  /** strings.Split(s, "\n"). */
  function Lines(s: string): (lines: seq<string>)
    ensures lines != []
    ensures forall l :: l in lines ==> '\n' !in l
  {
    if s == "" then [""]
    else
      var rest := Lines(s[1..]);
      if s[0] == '\n' then [""] + rest else [[s[0]] + rest[0]] + rest[1..]
  }

  function Joined(lines: seq<string>): string {
    if lines == [] then "" else if |lines| == 1 then lines[0] else lines[0] + "\n" + Joined(lines[1..])
  }

  datatype Pair = Pair(key: string, value: string) | NoPair

  /** strings.Cut(s, "="). */
  function Cut(s: string): Pair {
    if s == "" then NoPair
    else if s[0] == '=' then Pair("", s[1..])
    else
      match Cut(s[1..])
      case NoPair => NoPair
      case Pair(k, v) => Pair([s[0]] + k, v)
  }

  // ---- Reading a unit ---------------------------------------------------------------------

  datatype Identity = Identity(owner: string, xdg: string)

  const PIN := "XDG_DATA_HOME="

  /** One line of existingUnitIdentity. */
  function ReadLine(id: Identity, line: string): Identity {
    var l := Trim(line, IsSpace);
    if l == "" || l[0] == '#' || l[0] == ';' then id
    else
      match Cut(l)
      case NoPair => id
      case Pair(k, v) => ReadSetting(id, Trim(k, IsSpace), Plain(v))
  }

  /** White space removed at both ends, then quotes. */
  function Plain(v: string): string {
    Trim(Trim(v, IsSpace), IsQuote)
  }

  /** The switch: the last User= and the last data-home pin win. */
  function ReadSetting(id: Identity, key: string, value: string): Identity {
    if key == "User" then id.(owner := value)
    else if key == "Environment" && PIN <= value then id.(xdg := Plain(value[|PIN|..]))
    else id
  }

  function ReadLines(lines: seq<string>, id: Identity): Identity
    decreases |lines|
  {
    if lines == [] then id else ReadLines(lines[1..], ReadLine(id, lines[0]))
  }

  /** existingUnitIdentity on the content of an existing file. */
  method ExistingUnitIdentity(content: string) returns (id: Identity)
    ensures id == ReadLines(Lines(content), Identity("", ""))
  {
    var lines := Lines(content);
    id := Identity("", "");
    for i := 0 to |lines|
      invariant ReadLines(lines[i..], id) == ReadLines(lines, Identity("", ""))
    {
      id := ReadLine(id, lines[i]);
      assert lines[i..][1..] == lines[i + 1..];
    }
  }

  // ---- Trimming lemmas ----------------------------------------------------------------------

  lemma {:induction false} TrimLeftShrinks(s: string, p: Class)
    ensures |TrimLeft(s, p)| <= |s|
    ensures |TrimLeft(s, p)| == |s| <==> s == "" || !p(s[0])
    ensures forall c :: c in TrimLeft(s, p) ==> c in s
  {
    if s != "" && p(s[0]) {
      TrimLeftShrinks(s[1..], p);
    }
  }

  lemma {:induction false} TrimRightShrinks(s: string, p: Class)
    ensures |TrimRight(s, p)| <= |s|
    ensures |TrimRight(s, p)| == |s| <==> s == "" || !p(s[|s| - 1])
    ensures forall c :: c in TrimRight(s, p) ==> c in s
  {
    if s != "" && p(s[|s| - 1]) {
      TrimRightShrinks(s[..|s| - 1], p);
    }
  }

  /** No character of the class at either end. */
  predicate Bare(s: string, p: Class) {
    s == "" || (!p(s[0]) && !p(s[|s| - 1]))
  }

  lemma TrimShrinks(s: string, p: Class)
    ensures |Trim(s, p)| <= |s|
    ensures |Trim(s, p)| == |s| <==> Bare(s, p)
    ensures Bare(s, p) ==> Trim(s, p) == s
    ensures forall c :: c in Trim(s, p) ==> c in s
  {
    TrimLeftShrinks(s, p);
    TrimRightShrinks(TrimLeft(s, p), p);
  }

  /** Trimming on the right stops at a character outside the class. */
  lemma {:induction false} TrimRightStops(a: string, b: string, p: Class)
    requires a != "" && !p(a[|a| - 1])
    ensures TrimRight(a + b, p) == a + TrimRight(b, p)
  {
    if b == "" {
      assert a + b == a;
    } else if p(b[|b| - 1]) {
      assert (a + b)[..|a + b| - 1] == a + b[..|b| - 1];
      TrimRightStops(a, b[..|b| - 1], p);
    }
  }

  lemma {:induction false} CutSetting(k: string, v: string)
    requires '=' !in k
    ensures Cut(k + "=" + v) == Pair(k, v)
  {
    var s := k + "=" + v;
    if k != "" {
      assert s[1..] == k[1..] + "=" + v;
      CutSetting(k[1..], v);
    }
  }

  lemma {:induction false} CutNone(s: string)
    requires '=' !in s
    ensures Cut(s) == NoPair
  {
    if s != "" {
      CutNone(s[1..]);
    }
  }

  lemma {:induction false} LinesOfOne(a: string)
    requires '\n' !in a
    ensures Lines(a) == [a]
  {
    if a != "" {
      LinesOfOne(a[1..]);
      assert [a[0]] + a[1..] == a;
    }
  }

  lemma {:induction false} LinesOfMore(a: string, s: string)
    requires '\n' !in a
    ensures Lines(a + "\n" + s) == [a] + Lines(s)
  {
    var t := a + "\n" + s;
    if a == "" {
      assert t[1..] == s;
    } else {
      LinesOfMore(a[1..], s);
      assert t[1..] == a[1..] + "\n" + s;
      assert [a[0]] + a[1..] == a;
    }
  }

  /** Splitting undoes joining. */
  lemma {:induction false} LinesOfJoined(lines: seq<string>)
    requires lines != [] && forall l :: l in lines ==> '\n' !in l
    ensures Lines(Joined(lines)) == lines
  {
    if |lines| == 1 {
      LinesOfOne(lines[0]);
    } else {
      LinesOfJoined(lines[1..]);
      LinesOfMore(lines[0], Joined(lines[1..]));
    }
  }

  // ---- Reading back one line -------------------------------------------------------------------

  function Setting(k: string, v: string): string {
    k + "=" + v
  }

  /** A key as the printer writes them. */
  predicate Key(k: string) {
    k != "" && '=' !in k && Bare(k, IsSpace) && k[0] != '#' && k[0] != ';'
  }

  lemma ReadKeyLine(id: Identity, k: string, v: string)
    requires Key(k)
    ensures ReadLine(id, Setting(k, v)) == ReadSetting(id, k, Plain(TrimRight(v, IsSpace)))
  {
    var line, rest := k + "=" + v, TrimRight(v, IsSpace);
    assert TrimLeft(line, IsSpace) == line;
    TrimRightStops(k + "=", v, IsSpace);
    assert Trim(line, IsSpace) == k + "=" + rest;
    CutSetting(k, rest);
    TrimShrinks(k, IsSpace);
  }

  /** Lines that carry no identity. */
  ghost predicate Inert(line: string) {
    forall id :: ReadLine(id, line) == id
  }

  lemma OtherKeyIsInert(k: string, v: string)
    requires Key(k) && k != "User" && k != "Environment"
    ensures Inert(Setting(k, v))
  {
    forall id
      ensures ReadLine(id, Setting(k, v)) == id
    {
      ReadKeyLine(id, k, v);
    }
  }

  lemma PlainLineIsInert(line: string)
    requires line == "" || (Bare(line, IsSpace) && (line[0] == '#' || '=' !in line))
    ensures Inert(line)
  {
    TrimShrinks(line, IsSpace);
    if line != "" && line[0] != '#' {
      CutNone(line);
    }
  }

  /** No line break, and neither white space nor quotes at an end. */
  predicate Recoverable(v: string) {
    '\n' !in v && Bare(v, IsSpace) && Bare(v, IsQuote)
  }

  /** A value written after a key is read back unchanged exactly when its ends are bare. */
  lemma PlainExact(v: string)
    ensures Plain(TrimRight(v, IsSpace)) == v <==> Bare(v, IsSpace) && Bare(v, IsQuote)
  {
    var a := TrimRight(v, IsSpace);
    var b := Trim(a, IsSpace);
    TrimRightShrinks(v, IsSpace);
    TrimShrinks(a, IsSpace);
    TrimShrinks(b, IsQuote);
    if |a| == |v| {
      assert a == v;
    }
  }

  /** What the data-home pin reads back as. */
  function PinRead(x: string): string {
    Plain(TrimRight(TrimRight(TrimRight(x, IsSpace), IsSpace), IsQuote))
  }

  lemma TrimAfterPin(x: string, p: Class)
    requires !p('X') && !p('=')
    ensures Trim(PIN + x, p) == PIN + TrimRight(x, p)
  {
    assert TrimLeft(PIN + x, p) == PIN + x;
    TrimRightStops(PIN, x, p);
  }

  lemma ReadPin(id: Identity, x: string)
    ensures ReadLine(id, Setting("Environment", PIN + x)) == id.(xdg := PinRead(x))
  {
    ReadKeyLine(id, "Environment", PIN + x);
    PlainPin(x);
    var rest := TrimRight(TrimRight(TrimRight(x, IsSpace), IsSpace), IsQuote);
    assert (PIN + rest)[|PIN|..] == rest;
  }

  lemma PlainPin(x: string)
    ensures Plain(TrimRight(PIN + x, IsSpace)) == PIN + TrimRight(TrimRight(TrimRight(x, IsSpace), IsSpace), IsQuote)
  {
    var a := TrimRight(x, IsSpace);
    TrimRightStops(PIN, x, IsSpace);
    TrimAfterPin(a, IsSpace);
    TrimAfterPin(TrimRight(a, IsSpace), IsQuote);
  }

  lemma PinExact(x: string)
    ensures PinRead(x) == x <==> Bare(x, IsSpace) && Bare(x, IsQuote)
  {
    var a := TrimRight(x, IsSpace);
    var b := TrimRight(a, IsSpace);
    var c := TrimRight(b, IsQuote);
    var d := Trim(c, IsSpace);
    TrimRightShrinks(x, IsSpace);
    TrimRightShrinks(a, IsSpace);
    TrimRightShrinks(b, IsQuote);
    TrimShrinks(c, IsSpace);
    TrimShrinks(d, IsQuote);
  }

  lemma ReadOwner(id: Identity, v: string)
    ensures ReadLine(id, Setting("User", v)) == id.(owner := Plain(TrimRight(v, IsSpace)))
  {
    ReadKeyLine(id, "User", v);
  }

  // ---- Printing a unit ----------------------------------------------------------------------------

  /** A comment of two sentences. */
  const MARKER := "# " + OWNED + WARNING
  const OWNED := "Managed by corten-matrix install-service. "
  const WARNING := "Do not hand-edit; this file is overwritten."

  const NETWORK := "network-online.target"

  function Head(): seq<string> {
    [MARKER, "[Unit]", Setting("Description", "corten-matrix iMessage bridge"), Setting("After", NETWORK),
     Setting("Wants", NETWORK), "", "[Service]"]
  }

  function IdentityLines(system: bool, id: Identity): seq<string> {
    (if system && id.owner != "" then [Setting("User", id.owner)] else [])
    + (if id.xdg != "" then [Setting("Environment", PIN + id.xdg)] else [])
  }

  /** The binary, the working directory and the install target. */
  datatype Place = Place(self: string, data: string, wantedBy: string)

  function Tail(p: Place): seq<string> {
    [Setting("ExecStart", p.self + " bridge-all"), Setting("WorkingDirectory", p.data), Setting("Restart", "always"),
     Setting("RestartSec", "5"), Setting("LimitNOFILE", "65536"), "", "[Install]", Setting("WantedBy", p.wantedBy), ""]
  }

  function UnitLines(system: bool, id: Identity, p: Place): seq<string> {
    Head() + IdentityLines(system, id) + Tail(p)
  }

  /** systemdUnitBody. */
  function UnitBody(system: bool, id: Identity, p: Place): string {
    Joined(UnitLines(system, id, p))
  }

  predicate OneLine(s: string) {
    '\n' !in s
  }

  predicate PlaceOk(p: Place) {
    OneLine(p.self) && OneLine(p.data) && OneLine(p.wantedBy)
  }

  /** A line that splits from its neighbours and carries no identity. */
  ghost predicate Harmless(line: string) {
    OneLine(line) && Inert(line)
  }

  lemma HarmlessSetting(k: string, v: string)
    requires Key(k) && k != "User" && k != "Environment" && OneLine(k) && OneLine(v)
    ensures Harmless(Setting(k, v))
  {
    OtherKeyIsInert(k, v);
  }

  lemma HarmlessHeadings()
    ensures Harmless("[Unit]") && Harmless("[Service]") && Harmless("[Install]") && Harmless("")
  {
    PlainLineIsInert("[Unit]");
    PlainLineIsInert("[Service]");
    PlainLineIsInert("[Install]");
    PlainLineIsInert("");
  }

  lemma HarmlessDescription()
    ensures Harmless(Setting("Description", "corten-matrix iMessage bridge"))
  {
    HarmlessSetting("Description", "corten-matrix iMessage bridge");
  }

  lemma HarmlessOrdering()
    ensures Harmless(Setting("After", NETWORK)) && Harmless(Setting("Wants", NETWORK))
  {
    HarmlessSetting("After", NETWORK);
    HarmlessSetting("Wants", NETWORK);
  }

  lemma HarmlessRestart()
    ensures Harmless(Setting("Restart", "always"))
    ensures Harmless(Setting("RestartSec", "5"))
    ensures Harmless(Setting("LimitNOFILE", "65536"))
  {
    HarmlessSetting("Restart", "always");
    HarmlessDelay();
    HarmlessLimit();
  }

  lemma HarmlessDelay()
    ensures Harmless(Setting("RestartSec", "5"))
  {
    HarmlessSetting("RestartSec", "5");
  }

  lemma HarmlessLimit()
    ensures Harmless(Setting("LimitNOFILE", "65536"))
  {
    HarmlessSetting("LimitNOFILE", "65536");
  }

  lemma HarmlessPlace(p: Place)
    requires PlaceOk(p)
    ensures Harmless(Setting("ExecStart", p.self + " bridge-all"))
    ensures Harmless(Setting("WorkingDirectory", p.data))
    ensures Harmless(Setting("WantedBy", p.wantedBy))
  {
    HarmlessExec(p.self);
    HarmlessData(p.data);
    HarmlessSetting("WantedBy", p.wantedBy);
  }

  lemma HarmlessExec(self: string)
    requires OneLine(self)
    ensures Harmless(Setting("ExecStart", self + " bridge-all"))
  {
    assert OneLine(" bridge-all");
    HarmlessSetting("ExecStart", self + " bridge-all");
  }

  lemma HarmlessData(data: string)
    requires OneLine(data)
    ensures Harmless(Setting("WorkingDirectory", data))
  {
    HarmlessSetting("WorkingDirectory", data);
  }

  lemma HarmlessMarker()
    ensures Harmless(MARKER)
  {
    OwnedIsOneLine();
    WarningIsOneLine();
    HarmlessComment(OWNED, WARNING);
  }

  lemma OwnedIsOneLine()
    ensures OneLine(OWNED)
  {}

  lemma WarningIsOneLine()
    ensures OneLine(WARNING) && WARNING != "" && !IsSpace(WARNING[|WARNING| - 1])
  {}

  lemma HarmlessComment(a: string, b: string)
    requires OneLine(a) && OneLine(b) && b != "" && !IsSpace(b[|b| - 1])
    ensures Harmless("# " + a + b)
  {
    PlainLineIsInert("# " + a + b);
  }

  lemma HeadIsHarmless()
    ensures forall l :: l in Head() ==> Harmless(l)
  {
    HarmlessMarker();
    HarmlessHeadings();
    HarmlessDescription();
    HarmlessOrdering();
  }

  lemma TailIsHarmless(p: Place)
    requires PlaceOk(p)
    ensures forall l :: l in Tail(p) ==> Harmless(l)
  {
    HarmlessHeadings();
    HarmlessRestart();
    HarmlessPlace(p);
  }

  lemma {:induction false} ReadInert(lines: seq<string>, id: Identity)
    requires forall l :: l in lines ==> Inert(l)
    ensures ReadLines(lines, id) == id
  {
    if lines != [] {
      assert lines[0] in lines;
      ReadInert(lines[1..], id);
    }
  }

  lemma {:induction false} ReadConcat(a: seq<string>, b: seq<string>, id: Identity)
    ensures ReadLines(a + b, id) == ReadLines(b, ReadLines(a, id))
    decreases |a|
  {
    if a == [] {
      assert a + b == b;
    } else {
      assert (a + b)[1..] == a[1..] + b;
      ReadConcat(a[1..], b, ReadLine(id, a[0]));
    }
  }

  // ---- Printing, then reading ----------------------------------------------------------------------

  /** What a printed unit reads back as. */
  function ReadBack(system: bool, id: Identity): Identity {
    Identity(if system then Plain(TrimRight(id.owner, IsSpace)) else "", PinRead(id.xdg))
  }

  lemma IdentityReadsBack(system: bool, id: Identity)
    ensures ReadLines(IdentityLines(system, id), Identity("", "")) == ReadBack(system, id)
  {
    ReadOwner(Identity("", ""), id.owner);
    var first := Identity(if system then Plain(TrimRight(id.owner, IsSpace)) else "", "");
    ReadPin(first, id.xdg);
    var users := if system && id.owner != "" then [Setting("User", id.owner)] else [];
    var pins := if id.xdg != "" then [Setting("Environment", PIN + id.xdg)] else [];
    ReadConcat(users, pins, Identity("", ""));
    assert users != [] ==> users[1..] == [];
    assert ReadLines(users, Identity("", "")) == first;
    assert pins != [] ==> pins[1..] == [];
  }

  predicate IdentityOneLine(system: bool, id: Identity) {
    (system ==> OneLine(id.owner)) && OneLine(id.xdg)
  }

  lemma UnitLinesBack(system: bool, id: Identity, p: Place)
    requires PlaceOk(p) && IdentityOneLine(system, id)
    ensures Lines(UnitBody(system, id, p)) == UnitLines(system, id, p)
  {
    HeadIsHarmless();
    TailIsHarmless(p);
    LinesOfJoined(UnitLines(system, id, p));
  }

  lemma UnitReadsBack(system: bool, id: Identity, p: Place)
    requires PlaceOk(p) && IdentityOneLine(system, id)
    ensures ReadLines(Lines(UnitBody(system, id, p)), Identity("", "")) == ReadBack(system, id)
  {
    UnitLinesBack(system, id, p);
    HeadIsHarmless();
    TailIsHarmless(p);
    var head, own, tail := Head(), IdentityLines(system, id), Tail(p);
    ReadConcat(head + own, tail, Identity("", ""));
    ReadConcat(head, own, Identity("", ""));
    ReadInert(head, Identity("", ""));
    IdentityReadsBack(system, id);
    ReadInert(tail, ReadBack(system, id));
  }

  /** Nothing read from lines contains a line break. */
  lemma {:induction false} ReadIsOneLine(lines: seq<string>, id: Identity)
    requires OneLine(id.owner) && OneLine(id.xdg) && forall l :: l in lines ==> OneLine(l)
    ensures OneLine(ReadLines(lines, id).owner) && OneLine(ReadLines(lines, id).xdg)
    decreases |lines|
  {
    if lines != [] {
      assert lines[0] in lines;
      ReadLineIsOneLine(lines[0], id);
      ReadIsOneLine(lines[1..], ReadLine(id, lines[0]));
    }
  }

  lemma {:induction false} CutParts(s: string)
    ensures Cut(s).Pair? ==> forall c :: c in Cut(s).value ==> c in s
  {
    if s != "" && s[0] != '=' {
      CutParts(s[1..]);
    }
  }

  lemma PlainParts(v: string)
    ensures forall c :: c in Plain(v) ==> c in v
  {
    TrimShrinks(v, IsSpace);
    TrimShrinks(Trim(v, IsSpace), IsQuote);
  }

  lemma ReadLineIsOneLine(line: string, id: Identity)
    requires OneLine(id.owner) && OneLine(id.xdg) && OneLine(line)
    ensures OneLine(ReadLine(id, line).owner) && OneLine(ReadLine(id, line).xdg)
  {
    var l := Trim(line, IsSpace);
    TrimShrinks(line, IsSpace);
    CutParts(l);
    if Cut(l).Pair? {
      var value := Plain(Cut(l).value);
      PlainParts(Cut(l).value);
      if PIN <= value {
        PlainParts(value[|PIN|..]);
      }
    }
  }

  /**
    A printed unit gives back its owner (system scope) and data home if and only if they
    have no line break and neither white space nor quotes at their ends.
   */
  lemma ReadUndoesPrintExactly(system: bool, id: Identity, p: Place)
    requires PlaceOk(p) && (!system ==> id.owner == "")
    ensures ReadLines(Lines(UnitBody(system, id, p)), Identity("", "")) == id
       <==> Recoverable(id.owner) && Recoverable(id.xdg)
  {
    ReadIsOneLine(Lines(UnitBody(system, id, p)), Identity("", ""));
    if IdentityOneLine(system, id) {
      UnitReadsBack(system, id, p);
      PlainExact(id.owner);
      PinExact(id.xdg);
    }
  }

  // ---- Reading any owned unit --------------------------------------------------------------------

  predicate Blank(s: string) {
    forall c :: c in s ==> IsSpace(c)
  }

  lemma {:induction false} TrimLeftBlank(b: string, s: string)
    requires Blank(b)
    ensures TrimLeft(b + s, IsSpace) == TrimLeft(s, IsSpace)
  {
    if b == "" {
      assert b + s == s;
    } else {
      assert b[0] in b && (b + s)[1..] == b[1..] + s;
      TrimLeftBlank(b[1..], s);
    }
  }

  lemma {:induction false} TrimRightBlank(s: string, b: string)
    requires Blank(b)
    ensures TrimRight(s + b, IsSpace) == TrimRight(s, IsSpace)
  {
    if b == "" {
      assert s + b == s;
    } else {
      assert b[|b| - 1] in b && (s + b)[..|s + b| - 1] == s + b[..|b| - 1];
      TrimRightBlank(s, b[..|b| - 1]);
    }
  }

  /** Blanks around a value that begins and ends in something else are trimmed, and only they. */
  lemma TrimBlanks(a: string, s: string, b: string)
    requires Blank(a) && Blank(b) && Bare(s, IsSpace)
    ensures Trim(a + s + b, IsSpace) == s
  {
    assert a + s + b == a + (s + b);
    TrimLeftBlank(a, s + b);
    if s == "" {
      assert s + b == b && b + "" == b;
      TrimLeftBlank(b, "");
    } else {
      assert TrimLeft(s + b, IsSpace) == s + b;
      TrimRightBlank(s, b);
      TrimShrinks(s, IsSpace);
    }
  }

  /** A setting may have blanks at both ends and on both sides of its equals sign. */
  lemma SpacedSetting(id: Identity, a: string, k: string, b: string, c: string, v: string, d: string)
    requires Blank(a) && Blank(b) && Blank(c) && Blank(d) && Key(k) && Bare(v, IsSpace) && v != ""
    ensures ReadLine(id, a + (k + b + "=" + c + v) + d) == ReadSetting(id, k, Trim(v, IsQuote))
  {
    var l := k + b + "=" + c + v;
    assert l[0] == k[0] && l[|l| - 1] == v[|v| - 1];
    TrimBlanks(a, l, d);
    forall x | x in b
      ensures x != '='
    {}
    assert l == (k + b) + "=" + (c + v);
    CutSetting(k + b, c + v);
    assert "" + k + b == k + b && c + v + "" == c + v;
    TrimBlanks("", k, b);
    TrimBlanks(c, v, "");
  }

  /** The last owner set is the owner, whatever stands before; blanks and quotes around it do not count. */
  lemma LastOwnerWins(lines: seq<string>, a: string, b: string, c: string, v: string, d: string)
    requires Blank(a) && Blank(b) && Blank(c) && Blank(d)
    requires v != "" && Bare(v, IsSpace) && Bare(v, IsQuote)
    ensures ReadLines(lines + [a + ("User" + b + "=" + c + v) + d], Identity("", "")).owner == v
    ensures ReadLines(lines + [a + ("User" + b + "=" + c + v) + d], Identity("", "")).xdg
         == ReadLines(lines, Identity("", "")).xdg
  {
    var l := a + ("User" + b + "=" + c + v) + d;
    ReadConcat(lines, [l], Identity("", ""));
    assert [l][1..] == [];
    SpacedSetting(ReadLines(lines, Identity("", "")), a, "User", b, c, v, d);
    TrimShrinks(v, IsQuote);
  }

  /** A comment, of either kind and wherever it begins, says nothing, whatever it contains. */
  lemma CommentsSayNothing(lines: seq<string>, a: string, comment: string)
    requires Blank(a) && comment != "" && (comment[0] == '#' || comment[0] == ';')
    ensures ReadLines(lines + [a + comment], Identity("", "")) == ReadLines(lines, Identity("", ""))
  {
    ReadConcat(lines, [a + comment], Identity("", ""));
    assert [a + comment][1..] == [];
    TrimLeftBlank(a, comment);
    assert comment == [comment[0]] + comment[1..];
    TrimRightStops([comment[0]], comment[1..], IsSpace);
  }

  // ---- Resolving an identity ----------------------------------------------------------------------

  /** Who runs the command, and the data home that its environment gives. */
  datatype Caller = Caller(sudoUser: string, currentUser: string, fallbackXdg: string)

  datatype Resolution = Write(id: Identity, data: string) | Refuse

  predicate IsAbs(path: string) {
    path != "" && path[0] == '/'
  }

  /** resolveUnitIdentity; dataDir joins the data home with the bridge's directory. */
  function Resolve(system: bool, exists_: bool, managed: bool, preserved: Identity, c: Caller,
                   dataDir: string -> string): Resolution {
    if exists_ && !managed then Refuse
    else if exists_ && preserved.xdg == "" && preserved.owner != "" then Refuse
    else
      var owner := if exists_ then preserved.owner
                   else if c.sudoUser != "" then c.sudoUser
                   else if system && c.currentUser == "" then "root"
                   else c.currentUser;
      var xdg := if exists_ && preserved.xdg != "" then preserved.xdg else c.fallbackXdg;
      if IsAbs(xdg) then Write(Identity(owner, xdg), dataDir(xdg)) else Refuse
  }

  datatype File = NoFile | File(content: string)

  /** strings.Contains(content, managedUnitMarker). */
  predicate Managed(content: string) {
    exists i :: 0 <= i <= |content| && MARKER <= content[i..]
  }

  function WantedBy(system: bool): string {
    if system then "multi-user.target" else "default.target"
  }

  function PlaceFor(system: bool, self: string, data: string): Place {
    Place(self, data, WantedBy(system))
  }

  function BodyFor(system: bool, id: Identity, self: string, dataDir: string -> string): string {
    UnitBody(system, id, PlaceFor(system, self, dataDir(id.xdg)))
  }

  /** What serviceInstall leaves in the unit file. */
  function Install(system: bool, file: File, c: Caller, self: string, dataDir: string -> string): File {
    var resolution := match file
      case NoFile => Resolve(system, false, false, Identity("", ""), c, dataDir)
      case File(content) =>
        Resolve(system, true, Managed(content), ReadLines(Lines(content), Identity("", "")), c, dataDir);
    match resolution
    case Refuse => file
    case Write(id, data) => File(UnitBody(system, id, PlaceFor(system, self, data)))
  }

  /** The binary path and every derived directory fit on a line. */
  ghost predicate Printable(self: string, dataDir: string -> string) {
    OneLine(self) && forall xdg :: OneLine(xdg) ==> OneLine(dataDir(xdg))
  }

  lemma PlaceForOk(system: bool, self: string, dataDir: string -> string, xdg: string)
    requires Printable(self, dataDir) && OneLine(xdg)
    ensures PlaceOk(PlaceFor(system, self, dataDir(xdg)))
  {
    assert OneLine(WantedBy(system));
  }

  lemma BodyIsManaged(system: bool, id: Identity, p: Place)
    ensures Managed(UnitBody(system, id, p))
  {
    var lines := UnitLines(system, id, p);
    assert lines[0] == MARKER;
    var body := Joined(lines);
    assert body == MARKER + "\n" + Joined(lines[1..]);
    assert body[0..] == body;
  }

  ghost predicate MarkedAround(content: string, a: string, b: string) {
    content == a + MARKER + b
  }

  /** A unit is owned when the marker stands anywhere in it. */
  lemma ManagedAnywhere(content: string)
    ensures Managed(content) <==> exists a, b :: MarkedAround(content, a, b)
  {
    if i :| 0 <= i <= |content| && MARKER <= content[i..] {
      MarkerSplits(content, i, MARKER);
      assert MarkedAround(content, content[..i], content[i + |MARKER|..]);
    }
    if a, b :| MarkedAround(content, a, b) {
      assert content[|a|..] == MARKER + b;
    }
  }

  lemma MarkerSplits(content: string, i: nat, m: string)
    requires i <= |content| && m <= content[i..]
    ensures i + |m| <= |content| && content == content[..i] + m + content[i + |m|..]
  {}

  // ---- What a written unit tells systemd ------------------------------------------------------------

  predicate IsHeading(line: string) {
    line != "" && line[0] == '['
  }

  /** The line stands in the section. */
  ghost predicate SaysAt(lines: seq<string>, section: string, line: string, i: nat, j: nat) {
    && i < j < |lines| && lines[i] == section && IsHeading(section) && lines[j] == line
    && forall m :: i < m <= j ==> !IsHeading(lines[m])
  }

  ghost predicate Says(lines: seq<string>, section: string, line: string) {
    exists i: nat, j: nat :: SaysAt(lines, section, line, i, j)
  }

  /** How the unit runs the bridge, where, as whom and for which target. */
  ghost predicate Tells(lines: seq<string>, user: string, home: string, self: string, data: string, target: string) {
    && Says(lines, "[Unit]", Setting("After", NETWORK))
    && (if user != "" then Says(lines, "[Service]", Setting("User", user)) else NamesNoUser(lines))
    && Says(lines, "[Service]", Setting("Environment", PIN + home))
    && Says(lines, "[Service]", Setting("ExecStart", self + " bridge-all"))
    && Says(lines, "[Service]", Setting("WorkingDirectory", data))
    && Says(lines, "[Install]", Setting("WantedBy", target))
  }

  ghost predicate NamesNoUser(lines: seq<string>) {
    forall l :: l in lines ==> !("User" <= l)
  }

  lemma OtherInitial(l: string)
    requires l == "" || l[0] != 'U'
    ensures !("User" <= l)
  {}

  lemma FrameNamesNoUser(p: Place)
    ensures NamesNoUser(Head()) && NamesNoUser(Tail(p))
  {
    assert MARKER[0] == '#';
    forall l | l in Head()
      ensures !("User" <= l)
    {
      OtherInitial(l);
    }
    forall l | l in Tail(p)
      ensures !("User" <= l)
    {
      OtherInitial(l);
    }
  }

  lemma NoUserNamed(system: bool, id: Identity, p: Place)
    requires !system || id.owner == ""
    ensures NamesNoUser(UnitLines(system, id, p))
  {
    FrameNamesNoUser(p);
    OtherInitial(Setting("Environment", PIN + id.xdg));
  }

  /** Every line of a section's body stands in the section. */
  lemma SaysBody(lines: seq<string>, front: seq<string>, section: string, body: seq<string>, back: seq<string>)
    requires lines == front + [section] + body + back
    requires IsHeading(section) && forall l :: l in body ==> !IsHeading(l)
    ensures forall l :: l in body ==> Says(lines, section, l)
  {
    forall l | l in body
      ensures Says(lines, section, l)
    {
      var i :| 0 <= i < |body| && body[i] == l;
      forall m | |front| < m <= |front| + 1 + i
        ensures !IsHeading(lines[m])
      {
        assert lines[m] == body[m - |front| - 1];
      }
      assert SaysAt(lines, section, l, |front|, |front| + 1 + i);
    }
  }

  /** The body of the service section. */
  function ServiceLines(system: bool, id: Identity, p: Place): seq<string> {
    IdentityLines(system, id) + Tail(p)[..6]
  }

  lemma Sections(system: bool, id: Identity, p: Place)
    ensures UnitLines(system, id, p)
         == Head()[..6] + ["[Service]"] + ServiceLines(system, id, p) + Tail(p)[6..]
    ensures UnitLines(system, id, p)
         == (Head() + ServiceLines(system, id, p)) + ["[Install]"] + [Setting("WantedBy", p.wantedBy), ""] + []
    ensures UnitLines(system, id, p)
         == [MARKER] + ["[Unit]"] + Head()[2..6] + (Head()[6..] + IdentityLines(system, id) + Tail(p))
  {
    assert Head() == Head()[..6] + ["[Service]"];
    assert Tail(p) == Tail(p)[..6] + ["[Install]"] + [Setting("WantedBy", p.wantedBy), ""];
    assert Head() == [MARKER] + ["[Unit]"] + Head()[2..6] + Head()[6..];
  }

  lemma NoHeadings(system: bool, id: Identity, p: Place)
    ensures forall l :: l in ServiceLines(system, id, p) ==> !IsHeading(l)
    ensures forall l :: l in Head()[2..6] ==> !IsHeading(l)
    ensures !IsHeading(Setting("WantedBy", p.wantedBy))
  {}

  lemma ServiceHolds(system: bool, id: Identity, p: Place)
    requires id.xdg != ""
    ensures var service := ServiceLines(system, id, p);
      && (system && id.owner != "" ==> Setting("User", id.owner) in service)
      && Setting("Environment", PIN + id.xdg) in service
      && Setting("ExecStart", p.self + " bridge-all") in service
      && Setting("WorkingDirectory", p.data) in service
  {
    var run := Tail(p)[..6];
    assert run[0] == Setting("ExecStart", p.self + " bridge-all") && run[1] == Setting("WorkingDirectory", p.data);
    assert run[0] in run && run[1] in run;
  }

  lemma OrderingHolds()
    ensures Setting("After", NETWORK) in Head()[2..6]
  {
    assert Head()[2..6][1] == Setting("After", NETWORK);
  }

  lemma UnitTells(system: bool, id: Identity, p: Place)
    requires id.xdg != ""
    ensures Tells(UnitLines(system, id, p), if system then id.owner else "", id.xdg, p.self, p.data, p.wantedBy)
  {
    Sections(system, id, p);
    NoHeadings(system, id, p);
    ServiceHolds(system, id, p);
    OrderingHolds();
    if !system || id.owner == "" {
      NoUserNamed(system, id, p);
    }
    var lines, service := UnitLines(system, id, p), ServiceLines(system, id, p);
    SaysBody(lines, [MARKER], "[Unit]", Head()[2..6], Head()[6..] + IdentityLines(system, id) + Tail(p));
    SaysBody(lines, Head()[..6], "[Service]", service, Tail(p)[6..]);
    SaysBody(lines, Head() + service, "[Install]", [Setting("WantedBy", p.wantedBy), ""], []);
  }

  /**
    A fresh install is refused without an absolute data home. Else the unit it writes runs
    the bridge in the directory of that data home: in system scope as the user behind sudo,
    else the current user, else root, and for the multi-user target; in user scope as
    nobody in particular, and for the default target.
   */
  lemma FreshInstall(system: bool, c: Caller, self: string, dataDir: string -> string)
    requires Printable(self, dataDir) && OneLine(c.fallbackXdg) && OneLine(c.sudoUser) && OneLine(c.currentUser)
    ensures var file := Install(system, NoFile, c, self, dataDir);
      && (file.NoFile? <==> c.fallbackXdg == "" || c.fallbackXdg[0] != '/')
      && (file.File? ==>
            var user := if c.sudoUser != "" then c.sudoUser else if c.currentUser != "" then c.currentUser else "root";
            if system then
              Tells(Lines(file.content), user, c.fallbackXdg, self, dataDir(c.fallbackXdg), "multi-user.target")
            else
              Tells(Lines(file.content), "", c.fallbackXdg, self, dataDir(c.fallbackXdg), "default.target"))
  {
    var r := Resolve(system, false, false, Identity("", ""), c, dataDir);
    if r.Write? {
      assert OneLine("root");
      PlaceForOk(system, self, dataDir, c.fallbackXdg);
      UnitLinesBack(system, r.id, PlaceFor(system, self, r.data));
      UnitTells(system, r.id, PlaceFor(system, self, r.data));
    }
  }

  /** An owned unit that names an owner but no data home is left alone; one that names neither takes the caller's. */
  lemma HalfIdentity(system: bool, content: string, c: Caller, self: string, dataDir: string -> string)
    requires Managed(content) && ReadLines(Lines(content), Identity("", "")).xdg == ""
    ensures var owner := ReadLines(Lines(content), Identity("", "")).owner;
      Install(system, File(content), c, self, dataDir)
      == if owner == "" && IsAbs(c.fallbackXdg) then
           File(BodyFor(system, Identity("", c.fallbackXdg), self, dataDir))
         else File(content)
  {}

  /** An absolute path reads back as an absolute path. */
  lemma PinStaysAbsolute(x: string)
    requires IsAbs(x)
    ensures IsAbs(PinRead(x))
  {
    StaysAbsolute(x, IsSpace);
    var a := TrimRight(x, IsSpace);
    StaysAbsolute(a, IsSpace);
    var b := TrimRight(a, IsSpace);
    StaysAbsolute(b, IsQuote);
    var c := TrimRight(b, IsQuote);
    assert TrimLeft(c, IsSpace) == c;
    StaysAbsolute(c, IsSpace);
    var d := Trim(c, IsSpace);
    assert TrimLeft(d, IsQuote) == d;
    StaysAbsolute(d, IsQuote);
  }

  lemma StaysAbsolute(x: string, p: Class)
    requires IsAbs(x) && !p('/')
    ensures IsAbs(TrimRight(x, p))
  {
    assert x == [x[0]] + x[1..];
    TrimRightStops([x[0]], x[1..], p);
  }

  /** Reinstalling over a written unit resolves to what the unit says, whoever calls. */
  lemma ReinstallReadsUnit(system: bool, id: Identity, self: string, dataDir: string -> string, c: Caller)
    requires IsAbs(id.xdg) && IdentityOneLine(system, id) && Printable(self, dataDir)
    ensures Install(system, File(BodyFor(system, id, self, dataDir)), c, self, dataDir)
         == File(BodyFor(system, ReadBack(system, id), self, dataDir))
  {
    var p := PlaceFor(system, self, dataDir(id.xdg));
    PlaceForOk(system, self, dataDir, id.xdg);
    BodyIsManaged(system, id, p);
    UnitReadsBack(system, id, p);
    PinStaysAbsolute(id.xdg);
  }

  /** Neither white space nor quotes at an end. */
  predicate Clean(v: string) {
    Bare(v, IsSpace) && Bare(v, IsQuote)
  }

  lemma BodyDeterminesIdentity(system: bool, a: Identity, b: Identity, p: Place, q: Place)
    requires PlaceOk(p) && PlaceOk(q) && IdentityOneLine(system, a) && IdentityOneLine(system, b)
    requires a.xdg != "" && b.xdg != "" && UnitBody(system, a, p) == UnitBody(system, b, q)
    ensures a.xdg == b.xdg && (system ==> a.owner == b.owner)
  {
    UnitLinesBack(system, a, p);
    UnitLinesBack(system, b, q);
    SameIdentityLines(Head(), IdentityLines(system, a), Tail(p), IdentityLines(system, b), Tail(q));
    var la, lb := IdentityLines(system, a), IdentityLines(system, b);
    SameValue(Setting("Environment", PIN), a.xdg, b.xdg, la[|la| - 1], lb[|lb| - 1]);
    if |la| == 2 {
      SameValue("User" + "=", a.owner, b.owner, la[0], lb[0]);
    }
  }

  lemma SameIdentityLines(h: seq<string>, x: seq<string>, t: seq<string>, y: seq<string>, u: seq<string>)
    requires |t| == |u| && h + x + t == h + y + u
    ensures x == y
  {
    assert |x| == |y|;
    assert x == (h + x + t)[|h|..|h| + |x|];
    assert y == (h + y + u)[|h|..|h| + |y|];
  }

  lemma SameValue(k: string, a: string, b: string, x: string, y: string)
    requires x == k + a && y == k + b && x == y
    ensures a == b
  {
    assert a == x[|k|..] && b == y[|k|..];
  }

  /**
    Reinstalling over a written unit leaves it byte for byte as it is, under every caller,
    if and only if its data home (and, in system scope, its owner) is clean.
   */
  lemma ReinstallIsFixpointExactly(system: bool, id: Identity, self: string, dataDir: string -> string, c: Caller)
    requires IsAbs(id.xdg) && IdentityOneLine(system, id) && Printable(self, dataDir)
    ensures var body := BodyFor(system, id, self, dataDir);
      Install(system, File(body), c, self, dataDir) == File(body) <==> Clean(id.xdg) && (system ==> Clean(id.owner))
  {
    var back := ReadBack(system, id);
    ReinstallReadsUnit(system, id, self, dataDir, c);
    PinExact(id.xdg);
    PlainExact(id.owner);
    PinStaysAbsolute(id.xdg);
    if Clean(id.xdg) && (system ==> Clean(id.owner)) {
      assert IdentityLines(system, back) == IdentityLines(system, id);
    } else {
      BackIsOneLine(system, id);
      PlaceForOk(system, self, dataDir, id.xdg);
      PlaceForOk(system, self, dataDir, back.xdg);
      if BodyFor(system, back, self, dataDir) == BodyFor(system, id, self, dataDir) {
        BodyDeterminesIdentity(system, back, id, PlaceFor(system, self, dataDir(back.xdg)),
                               PlaceFor(system, self, dataDir(id.xdg)));
      }
    }
  }

  lemma BackIsOneLine(system: bool, id: Identity)
    requires IdentityOneLine(system, id)
    ensures IdentityOneLine(system, ReadBack(system, id))
  {
    var lines := IdentityLines(system, id);
    ReadIsOneLine(lines, Identity("", ""));
    IdentityReadsBack(system, id);
  }

  /** A fresh install, then any number of reinstalls by anyone, leaves the first content. */
  lemma {:induction false} InstallThenReinstall(system: bool, first: Caller, later: seq<Caller>, self: string,
                                                dataDir: string -> string)
    requires Printable(self, dataDir) && Install(system, NoFile, first, self, dataDir).File?
    requires OneLine(first.fallbackXdg) && Clean(first.fallbackXdg)
    requires system ==> OneLine(first.sudoUser) && Clean(first.sudoUser)
    requires system ==> OneLine(first.currentUser) && Clean(first.currentUser)
    ensures Reinstalls(system, Install(system, NoFile, first, self, dataDir), later, self, dataDir)
         == Install(system, NoFile, first, self, dataDir)
    decreases |later|
  {
    if later != [] {
      var id := Resolve(system, false, false, Identity("", ""), first, dataDir).id;
      assert OneLine("root") && Clean("root");
      ReinstallIsFixpointExactly(system, id, self, dataDir, later[0]);
      InstallThenReinstall(system, first, later[1..], self, dataDir);
    }
  }

  function Reinstalls(system: bool, file: File, callers: seq<Caller>, self: string, dataDir: string -> string): File
    decreases |callers|
  {
    if callers == [] then file
    else Reinstalls(system, Install(system, file, callers[0], self, dataDir), callers[1..], self, dataDir)
  }

  /** A unit this command did not write is never touched. */
  lemma ForeignUnitUntouched(system: bool, content: string, c: Caller, self: string, dataDir: string -> string)
    requires !Managed(content)
    ensures Install(system, File(content), c, self, dataDir) == File(content)
  {}

  /** A data home that ends in a blank: the reinstall drops the blank, so the file changes. */
  lemma TrailingBlankIsDropped(c: Caller)
    ensures var id, dataDir := Identity("", "/d "), (xdg: string) => xdg;
      && Install(false, File(BodyFor(false, id, "/b", dataDir)), c, "/b", dataDir)
         == File(BodyFor(false, Identity("", "/d"), "/b", dataDir))
      && BodyFor(false, Identity("", "/d"), "/b", dataDir) != BodyFor(false, id, "/b", dataDir)
  {
    var id, dataDir := Identity("", "/d "), (xdg: string) => xdg;
    assert "/d "[2] == ' ';
    BlankReadsBack();
    ReinstallReadsUnit(false, id, "/b", dataDir, c);
    ReinstallIsFixpointExactly(false, id, "/b", dataDir, c);
  }

  lemma BlankReadsBack()
    ensures PinRead("/d ") == "/d"
  {
    assert "/d "[..2] == "/d";
    assert TrimRight("/d ", IsSpace) == TrimRight("/d", IsSpace);
    TrimRightShrinks("/d", IsSpace);
    PinExact("/d");
  }
}
