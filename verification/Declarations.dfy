/** The endpoint gate's reading of `endpoint<[Args], Return>("name")`, and the printer it undoes. */
module Declarations {
  import opened Options
  import opened Text
  import opened Comments

  // ---- characters ------------------------------------------------------------------------

  predicate IsOpener(c: char) { c == '<' || c == '[' || c == '{' || c == '(' }

  predicate IsCloser(c: char) { c == '>' || c == ']' || c == '}' || c == ')' }

  /** `[A-Za-z0-9_$]` */
  predicate IsIdent(c: char)
  {
    'A' <= c <= 'Z' || 'a' <= c <= 'z' || '0' <= c <= '9' || c == '_' || c == '$'
  }

  /** `_is_arrow` */
  predicate IsArrow(s: string) { |s| > 1 && s[0] == '=' && s[1] == '>' }

  // ---- the scanners, on what is left of the text ----------------------------------------------

  function Plus(n: nat, k: Option<nat>): Option<nat>
  {
    match k
    case None => None
    case Some(m) => Some(n + m)
  }

  /** The step every scanner takes: over a literal or an arrow whole, over anything else one character. */
  function StepSize(s: string): (n: nat)
    requires s != ""
    ensures 1 <= n <= |s|
  {
    if IsQuote(s[0]) then LiteralEnd(s) else if IsArrow(s) then 2 else 1
  }

  /** How one step changes the bracket depth. */
  function StepDepth(s: string): int
    requires s != ""
  {
    if IsQuote(s[0]) || IsArrow(s) then 0 else if IsOpener(s[0]) then 1 else if IsCloser(s[0]) then -1 else 0
  }

  /** `_capture_generic`: how much text runs through the `>` that balances, `None` if none does. */
  function Captured(s: string, depth: int): (k: Option<nat>)
    ensures k.Some? ==> 1 <= k.value <= |s|
    decreases |s|
  {
    if s == "" then None
    else if StepDepth(s) == -1 && depth == 1 && s[0] == '>' then Some(1)
    else Plus(StepSize(s), Captured(s[StepSize(s)..], depth + StepDepth(s)))
  }

  /** The parts `_split_top_level` cuts, `part` being the one under way. */
  function Parts(s: string, depth: int, part: string): (parts: seq<string>)
    ensures |parts| > 0
    decreases |s|
  {
    if s == "" then [part]
    else if s[0] == ',' && depth == 0 then [part] + Parts(s[1..], 0, "")
    else Parts(s[StepSize(s)..], depth + StepDepth(s), part + s[..StepSize(s)])
  }

  /** `_split_top_level` */
  function Split(text: string): seq<string>
  {
    if Blank(text) then []
    else
      var parts := Parts(text, 0, "");
      if |parts| > 1 && Blank(parts[|parts| - 1]) then parts[..|parts| - 1] else parts
  }

  /** `_args_arity` */
  function Arity(fragment: string): nat
  {
    var inner := Strip(fragment);
    var bracketed := inner != "" && inner[0] == '[' && inner[|inner| - 1] == ']';
    |Split(if bracketed then inner[1..|inner| - 1] else inner)|
  }

  /** `"${" in body` */
  predicate Interpolates(body: string)
  {
    |body| > 1 && ((body[0] == '$' && body[1] == '{') || Interpolates(body[1..]))
  }

  /** `_trailing_call_name` */
  function CallName(s: string): Option<string>
  {
    var opening := LStrip(s);
    if opening == "" || opening[0] != '(' then None
    else
      var quoted := LStrip(opening[1..]);
      if quoted == "" || !IsQuote(quoted[0]) then None
      else
        var k := LiteralEnd(quoted);
        var body := if k > 1 then quoted[1..k - 1] else "";
        if quoted[0] != '`' || !Interpolates(body) then Some(body) else None
  }

  const MARKER := "endpoint"

  /** `MARKER` stands at the start. */
  predicate Marked(s: string)
  {
    |s| >= 8 && s[0] == 'e' && s[1] == 'n' && s[2] == 'd' && s[3] == 'p' && s[4] == 'o' && s[5] == 'i' && s[6] == 'n' &&
    s[7] == 't'
  }

  /** The search for the declaration name: where it starts, no identifier character standing before it. */
  function NextName(before: char, s: string): (k: Option<nat>)
    ensures k.Some? ==> k.value + 8 <= |s|
    decreases |s|
  {
    if Marked(s) && !IsIdent(before) then Some(0)
    else if s == "" then None
    else Plus(1, NextName(s[0], s[1..]))
  }

  /** What stands behind a marker: a generic, then a call. The name, its arity, and the generic's length. */
  function ReadGeneric(s: string): (d: Option<(string, nat, nat)>)
    ensures d.Some? ==> 1 <= d.value.2 <= |s| && s[d.value.2 - 1] == '>'
  {
    if s == "" || s[0] != '<' then None
    else
      match Captured(s, 0)
      case None => None
      case Some(k) =>
        CapturedEndsInBracket(s, 0);
        Declared(Split(if k > 1 then s[1..k - 1] else ""), CallName(s[k..]), k)
  }

  /** What the elements of a generic and the call behind it declare. */
  function Declared(elements: seq<string>, name: Option<string>, k: nat): (d: Option<(string, nat, nat)>)
    ensures d.Some? ==> d.value.2 == k
  {
    if elements == [] || name.None? then None else Some((name.value, Arity(elements[0]), k))
  }

  lemma {:induction false} CapturedEndsInBracket(s: string, depth: int)
    ensures Captured(s, depth).Some? ==> s[Captured(s, depth).value - 1] == '>'
    decreases |s|
  {
    if s != "" && !(StepDepth(s) == -1 && depth == 1 && s[0] == '>') {
      CapturedEndsInBracket(s[StepSize(s)..], depth + StepDepth(s));
    }
  }

  /** What was read `n` characters on. */
  function Further(n: nat, d: Option<(string, nat, nat)>): Option<(string, nat, nat)>
  {
    if d.None? then None else Some((d.value.0, d.value.1, n + d.value.2))
  }

  /** What one match yields: a name and its arity, and how much text after the marker is done with. */
  function ReadDeclaration(s: string): (d: Option<(string, nat, nat)>)
    ensures d.Some? ==> 1 <= d.value.2 <= |s| && s[d.value.2 - 1] == '>'
  {
    LStripShortens(s);
    Further(|s| - |LStrip(s)|, ReadGeneric(LStrip(s)))
  }

  /** `result[name] = -1 if name in result else arity` */
  function Record(result: map<string, int>, name: string, arity: nat): map<string, int>
  {
    result[name := if name in result then -1 else arity]
  }

  /** `_parse_text_into`, on what is left of the text after the character `before`. */
  function Parsed(before: char, s: string, result: map<string, int>): map<string, int>
    decreases |s|, 0
  {
    match NextName(before, s)
    case None => result
    case Some(k) => ParsedAfter(s[k + 8..], result)
  }

  /** The same from just behind a marker: on a declaration past its generic, on anything else right here. */
  function ParsedAfter(s: string, result: map<string, int>): map<string, int>
    decreases |s|, 1
  {
    match ReadDeclaration(s)
    case None => Parsed('t', s, result)
    case Some((name, arity, used)) => Parsed('>', s[used..], Record(result, name, arity))
  }

  // ---- the printer ---------------------------------------------------------------------------

  /** One character of a literal's body. */
  datatype Mark = Plain(c: char) | Escaped(c: char)

  /** A type, piece by piece. `Group` brings its own closing bracket. */
  datatype Piece = Word(c: char) | Quoted(quote: char, body: seq<Mark>) | Arrow | Group(open: char, inner: seq<Piece>)

  /** One declaration, and the text that leads up to it. */
  datatype Declaration = Declaration(lead: string, args: seq<seq<Piece>>, ret: seq<Piece>, name: string)

  function Closing(open: char): char
  {
    if open == '<' then '>' else if open == '[' then ']' else if open == '{' then '}' else ')'
  }

  function ShowMarks(body: seq<Mark>): string
  {
    if body == [] then ""
    else (if body[0].Plain? then [body[0].c] else ['\\', body[0].c]) + ShowMarks(body[1..])
  }

  function ShowPiece(p: Piece): string
    decreases p, 0
  {
    match p
    case Word(c) => [c]
    case Quoted(quote, body) => [quote] + ShowMarks(body) + [quote]
    case Arrow => "=>"
    case Group(open, inner) => [open] + Show(inner) + [Closing(open)]
  }

  function Show(ps: seq<Piece>): string
    decreases ps, 1
  {
    if ps == [] then "" else ShowPiece(ps[0]) + Show(ps[1..])
  }

  predicate EndsInEquals(s: string) { s != "" && s[|s| - 1] == '=' }

  /** A piece the scanners can read: brackets balance, literals close, and no generic ends in `=`, which its own
      closing bracket would turn into an arrow. */
  predicate Readable(p: Piece)
    decreases p, 0
  {
    match p
    case Word(c) => !IsQuote(c) && !IsOpener(c) && !IsCloser(c)
    case Quoted(quote, body) => IsQuote(quote) && forall m <- body :: m.Plain? ==> m.c != quote && m.c != '\\'
    case Arrow => true
    case Group(open, inner) => IsOpener(open) && AllReadable(inner) && (open == '<' ==> !EndsInEquals(Show(inner)))
  }

  predicate AllReadable(ps: seq<Piece>)
    decreases ps, 1
  {
    ps == [] || (Readable(ps[0]) && AllReadable(ps[1..]))
  }

  /** The arguments of one tuple, with commas between. */
  function Listed(args: seq<seq<Piece>>): seq<Piece>
  {
    if args == [] then [] else if |args| == 1 then args[0] else args[0] + [Word(','), Word(' ')] + Listed(args[1..])
  }

  function Generic(d: Declaration): Piece
  {
    Group('<', [Group('[', Listed(d.args)), Word(','), Word(' ')] + d.ret)
  }

  function Call(name: string): string { "(\"" + name + "\")" }

  function Document(ds: seq<Declaration>, tail: string): string
  {
    if ds == [] then tail
    else ds[0].lead + MARKER + ShowPiece(Generic(ds[0])) + Call(ds[0].name) + Document(ds[1..], tail)
  }

  /** No comma outside brackets. */
  predicate Bare(ps: seq<Piece>) { Word(',') !in ps }

  /** Text in which the marker does not occur, and which ends where an identifier could not be going on. */
  predicate Quiet(s: string)
  {
    (forall i :: 0 <= i <= |s| ==> !Marked(s[i..])) && (s != "" ==> !IsIdent(s[|s| - 1]))
  }

  ghost predicate Declares(d: Declaration) { Printable(d) && !EndsInEquals(Show(d.ret)) }

  /** The same of a return type that may end in `=`. */
  ghost predicate Printable(d: Declaration)
  {
    Quiet(d.lead) && AllReadable(d.ret) &&
    (forall i :: 0 <= i < |d.args| ==> AllReadable(d.args[i]) && Bare(d.args[i]) && !Blank(Show(d.args[i]))) &&
    forall c <- d.name :: IsIdent(c)
  }

  // ---- scanning printed pieces ------------------------------------------------------------------

  /** No arrow is made where the two texts meet. */
  predicate Meets(a: string, b: string) { !(EndsInEquals(a) && b != "" && b[0] == '>') }

  lemma {:induction false} MarksSkipped(u: string, i: nat, quote: char, body: seq<Mark>, rest: string)
    requires i <= |u| && u[i..] == ShowMarks(body) + [quote] + rest && IsQuote(quote)
    requires forall m <- body :: m.Plain? ==> m.c != quote && m.c != '\\'
    ensures SkipFrom(u, i, quote) == i + |ShowMarks(body)| + 1
    decreases |body|
  {
    var shown := ShowMarks(body);
    assert forall k :: 0 <= k < |u| - i ==> u[i + k] == u[i..][k];
    if body == [] {
      assert u[i] == quote;
    } else {
      var m := body[0];
      assert m in body && forall x <- body[1..] :: x in body;
      var head := if m.Plain? then [m.c] else ['\\', m.c];
      assert shown == head + ShowMarks(body[1..]);
      assert u[i + |head|..] == u[i..][|head|..] == ShowMarks(body[1..]) + [quote] + rest;
      MarksSkipped(u, i + |head|, quote, body[1..], rest);
    }
  }

  lemma LiteralShown(quote: char, body: seq<Mark>, rest: string)
    requires Readable(Quoted(quote, body))
    ensures LiteralEnd(ShowPiece(Quoted(quote, body)) + rest) == |ShowPiece(Quoted(quote, body))|
  {
    var u := ShowPiece(Quoted(quote, body)) + rest;
    assert u[1..] == ShowMarks(body) + [quote] + rest;
    MarksSkipped(u, 1, quote, body, rest);
  }

  /** A printed piece is one step, unless it is a group. */
  lemma PieceStep(p: Piece, rest: string)
    requires Readable(p) && !p.Group? && Meets(ShowPiece(p), rest)
    ensures var s := ShowPiece(p) + rest;
            StepSize(s) == |ShowPiece(p)| && s[StepSize(s)..] == rest && s[..StepSize(s)] == ShowPiece(p) &&
            StepDepth(s) == 0
  {
    var s := ShowPiece(p) + rest;
    if p.Quoted? { LiteralShown(p.quote, p.body, rest); }
    assert s[|ShowPiece(p)|..] == rest && s[..|ShowPiece(p)|] == ShowPiece(p);
  }

  lemma FirstShown(ps: seq<Piece>, rest: string)
    requires ps != [] && AllReadable(ps)
    ensures Show(ps) != "" && Show(ps)[0] != '>'
  {
  }

  /** Meeting carries over from a whole run of pieces to its first piece and to the others. */
  lemma MeetsInside(ps: seq<Piece>, rest: string)
    requires ps != [] && AllReadable(ps) && Meets(Show(ps), rest)
    ensures Meets(ShowPiece(ps[0]), Show(ps[1..]) + rest) && Meets(Show(ps[1..]), rest)
  {
    if ps[1..] == [] {
      assert Show(ps) == ShowPiece(ps[0]) && Show(ps[1..]) + rest == rest;
    } else {
      FirstShown(ps[1..], rest);
      assert Show(ps)[|Show(ps)| - 1] == Show(ps[1..])[|Show(ps[1..])| - 1];
    }
  }

  lemma {:induction false} CapturedOver(ps: seq<Piece>, rest: string, depth: int)
    requires AllReadable(ps) && depth >= 1 && Meets(Show(ps), rest)
    ensures Captured(Show(ps) + rest, depth) == Plus(|Show(ps)|, Captured(rest, depth))
    decreases ps, 1
  {
    if ps == [] {
      assert Show(ps) + rest == rest;
    } else {
      MeetsInside(ps, rest);
      assert Show(ps) + rest == ShowPiece(ps[0]) + (Show(ps[1..]) + rest);
      CapturedPiece(ps[0], Show(ps[1..]) + rest, depth);
      CapturedOver(ps[1..], rest, depth);
    }
  }

  lemma {:induction false} CapturedPiece(p: Piece, rest: string, depth: int)
    requires Readable(p) && depth >= 1 && Meets(ShowPiece(p), rest)
    ensures Captured(ShowPiece(p) + rest, depth) == Plus(|ShowPiece(p)|, Captured(rest, depth))
    decreases p, 0
  {
    if p.Group? {
      GroupSteps(p, rest);
      CapturedOver(p.inner, [Closing(p.open)] + rest, depth + 1);
      GroupCaptured(p, rest, depth);
    } else {
      PieceCaptured(p, rest, depth);
    }
  }

  lemma PieceCaptured(p: Piece, rest: string, depth: int)
    requires Readable(p) && !p.Group? && depth >= 1 && Meets(ShowPiece(p), rest)
    ensures Captured(ShowPiece(p) + rest, depth) == Plus(|ShowPiece(p)|, Captured(rest, depth))
  {
    PieceStep(p, rest);
    StepCaptured(ShowPiece(p) + rest, depth);
  }

  lemma GroupCaptured(p: Piece, rest: string, depth: int)
    requires p.Group? && Readable(p) && depth >= 1
    requires Captured(Show(p.inner) + ([Closing(p.open)] + rest), depth + 1) ==
             Plus(|Show(p.inner)|, Captured([Closing(p.open)] + rest, depth + 1))
    ensures Captured(ShowPiece(p) + rest, depth) == Plus(|ShowPiece(p)|, Captured(rest, depth))
  {
    var s, closed := ShowPiece(p) + rest, [Closing(p.open)] + rest;
    GroupSteps(p, rest);
    StepCaptured(s, depth);
    StepCaptured(closed, depth + 1);
  }

  lemma StepCaptured(s: string, depth: int)
    requires s != "" && (depth > 1 || StepDepth(s) != -1)
    ensures Captured(s, depth) == Plus(StepSize(s), Captured(s[StepSize(s)..], depth + StepDepth(s)))
  {
  }

  /** A group is an opening step, its inside, and a closing step. */
  lemma GroupSteps(p: Piece, rest: string)
    requires p.Group? && Readable(p)
    ensures var s, closed := ShowPiece(p) + rest, [Closing(p.open)] + rest;
            StepSize(s) == 1 && StepDepth(s) == 1 && s[1..] == Show(p.inner) + closed && s[..1] == [p.open] &&
            Meets(Show(p.inner), closed) &&
            StepSize(closed) == 1 && StepDepth(closed) == -1 && closed[1..] == rest && closed[..1] == [Closing(p.open)]
  {
  }

  lemma {:induction false} PartsOver(ps: seq<Piece>, rest: string, depth: int, part: string)
    requires AllReadable(ps) && depth >= 0 && (depth == 0 ==> Bare(ps)) && Meets(Show(ps), rest)
    ensures Parts(Show(ps) + rest, depth, part) == Parts(rest, depth, part + Show(ps))
    decreases ps, 1
  {
    if ps == [] {
      assert Show(ps) + rest == rest && part + Show(ps) == part;
    } else {
      MeetsInside(ps, rest);
      assert Show(ps) + rest == ShowPiece(ps[0]) + (Show(ps[1..]) + rest);
      assert depth == 0 ==> ps[0] in ps && Bare(ps[1..]);
      PartsPiece(ps[0], Show(ps[1..]) + rest, depth, part);
      PartsOver(ps[1..], rest, depth, part + ShowPiece(ps[0]));
      assert part + ShowPiece(ps[0]) + Show(ps[1..]) == part + Show(ps);
    }
  }

  lemma {:induction false} PartsPiece(p: Piece, rest: string, depth: int, part: string)
    requires Readable(p) && depth >= 0 && (depth == 0 ==> p != Word(',')) && Meets(ShowPiece(p), rest)
    ensures Parts(ShowPiece(p) + rest, depth, part) == Parts(rest, depth, part + ShowPiece(p))
    decreases p, 0
  {
    if p.Group? {
      var closed := [Closing(p.open)] + rest;
      GroupSteps(p, rest);
      PartsStep(ShowPiece(p) + rest, depth, part);
      PartsOver(p.inner, closed, depth + 1, part + [p.open]);
      PartsStep(closed, depth + 1, part + [p.open] + Show(p.inner));
      assert part + [p.open] + Show(p.inner) + [Closing(p.open)] == part + ShowPiece(p);
    } else {
      PieceStep(p, rest);
    }
  }

  lemma PartsStep(s: string, depth: int, part: string)
    requires s != "" && s[0] != ','
    ensures Parts(s, depth, part) == Parts(s[StepSize(s)..], depth + StepDepth(s), part + s[..StepSize(s)])
  {
  }

  // ---- reading one declaration back ---------------------------------------------------------------

  lemma {:induction false} AppendReadable(a: seq<Piece>, b: seq<Piece>)
    requires AllReadable(a) && AllReadable(b)
    ensures AllReadable(a + b) && Show(a + b) == Show(a) + Show(b)
  {
    if a == [] {
      assert a + b == b;
    } else {
      AppendReadable(a[1..], b);
      assert (a + b)[1..] == a[1..] + b && (a + b)[0] == a[0];
      assert ShowPiece(a[0]) + (Show(a[1..]) + Show(b)) == (ShowPiece(a[0]) + Show(a[1..])) + Show(b);
    }
  }

  lemma CommaSpace()
    ensures AllReadable([Word(','), Word(' ')]) && Show([Word(','), Word(' ')]) == ", "
  {
    assert [Word(','), Word(' ')][1..] == [Word(' ')];
  }

  lemma {:induction false} ListedIsReadable(args: seq<seq<Piece>>)
    requires forall i :: 0 <= i < |args| ==> AllReadable(args[i])
    ensures AllReadable(Listed(args))
    ensures |args| > 1 ==> Show(Listed(args)) == Show(args[0]) + (", " + Show(Listed(args[1..])))
  {
    if |args| > 1 {
      ListedIsReadable(args[1..]);
      CommaSpace();
      AppendReadable([Word(','), Word(' ')], Listed(args[1..]));
      AppendReadable(args[0], [Word(','), Word(' ')] + Listed(args[1..]));
      assert Listed(args) == args[0] + ([Word(','), Word(' ')] + Listed(args[1..]));
    }
  }

  lemma {:induction false} BlankParts(a: string, b: string)
    ensures Blank(a + b) <==> Blank(a) && Blank(b)
  {
    if a == "" {
      assert a + b == b;
    } else {
      assert (a + b)[1..] == a[1..] + b;
      BlankParts(a[1..], b);
    }
  }

  /** Cutting the printed arguments gives one part an argument, the last of them not blank. */
  lemma {:induction false} ListedParts(args: seq<seq<Piece>>, part: string)
    requires args != []
    requires forall i :: 0 <= i < |args| ==> AllReadable(args[i]) && Bare(args[i]) && !Blank(Show(args[i]))
    ensures var parts := Parts(Show(Listed(args)), 0, part); |parts| == |args| && !Blank(parts[|parts| - 1])
    ensures !Blank(Show(Listed(args)))
    decreases |args|
  {
    ListedIsReadable(args);
    if |args| == 1 {
      assert Show(args[0]) + "" == Show(args[0]);
      PartsOver(args[0], "", 0, part);
      BlankParts(part, Show(args[0]));
    } else {
      var tail := Show(Listed(args[1..]));
      FirstPart(args[0], tail, part);
      ListedParts(args[1..], " ");
      BlankParts(Show(args[0]), ", " + tail);
    }
  }

  /** A trailing comma adds a blank part, and the split drops it: the arguments are as many as without it. */
  lemma TrailingComma(args: seq<seq<Piece>>)
    requires args != []
    requires forall i :: 0 <= i < |args| ==> AllReadable(args[i]) && Bare(args[i]) && !Blank(Show(args[i]))
    ensures |Split(Show(Listed(args)) + ",")| == |Split(Show(Listed(args)))| == |args|
  {
    ListedParts(args, "");
    CommaParts(args, "");
    BlankParts(Show(Listed(args)), ",");
  }

  lemma {:induction false} CommaParts(args: seq<seq<Piece>>, part: string)
    requires args != []
    requires forall i :: 0 <= i < |args| ==> AllReadable(args[i]) && Bare(args[i])
    ensures var parts := Parts(Show(Listed(args)) + ",", 0, part);
            |parts| == |args| + 1 && parts[|args|] == ""
    decreases |args|
  {
    if |args| == 1 {
      PartsOver(args[0], ",", 0, part);
      assert Parts(",", 0, part + Show(args[0])) == [part + Show(args[0])] + Parts("", 0, "") by {
        assert ","[1..] == "";
      }
    } else {
      var tail := Show(Listed(args[1..]));
      ListedIsReadable(args);
      assert Show(Listed(args)) + "," == Show(args[0]) + (", " + (tail + ","));
      FirstPart(args[0], tail + ",", part);
      CommaParts(args[1..], " ");
    }
  }

  lemma FirstPart(arg: seq<Piece>, tail: string, part: string)
    requires AllReadable(arg) && Bare(arg)
    ensures Parts(Show(arg) + (", " + tail), 0, part) == [part + Show(arg)] + Parts(tail, 0, " ")
  {
    PartsOver(arg, ", " + tail, 0, part);
    CommaCuts(tail, part + Show(arg));
  }

  lemma CommaCuts(tail: string, part: string)
    ensures Parts(", " + tail, 0, part) == [part] + Parts(tail, 0, " ")
  {
    var spaced := " " + tail;
    assert (", " + tail)[1..] == spaced;
    PartsStep(spaced, 0, "");
    assert spaced[1..] == tail && "" + spaced[..1] == " ";
  }

  lemma TupleArity(args: seq<seq<Piece>>)
    requires forall i :: 0 <= i < |args| ==> AllReadable(args[i]) && Bare(args[i]) && !Blank(Show(args[i]))
    ensures Arity("[" + Show(Listed(args)) + "]") == |args|
  {
    BracketedArity(Show(Listed(args)));
    assert |Split(Show(Listed(args)))| == |args| by {
      if args != [] {
        ListedParts(args, "");
        SplitNothingOff(Show(Listed(args)));
      }
    }
  }

  lemma SplitNothingOff(text: string)
    requires !Blank(text) && !Blank(Parts(text, 0, "")[|Parts(text, 0, "")| - 1])
    ensures Split(text) == Parts(text, 0, "")
  {
  }

  lemma BracketedArity(listed: string)
    ensures Arity("[" + listed + "]") == |Split(listed)|
  {
    var fragment := "[" + listed + "]";
    LStripNone(fragment);
    RStripNone(fragment);
    assert Strip(fragment) == fragment && fragment[0] == '[' && fragment[|fragment| - 1] == ']';
    assert fragment[1..|fragment| - 1] == listed;
  }

  lemma {:induction false} NameSkipped(u: string, i: nat, name: string, rest: string)
    requires i <= |u| && u[i..] == name + "\"" + rest && forall c <- name :: IsIdent(c)
    ensures SkipFrom(u, i, '"') == i + |name| + 1
    decreases |name|
  {
    assert forall k :: 0 <= k < |u| - i ==> u[i + k] == u[i..][k];
    if name == "" {
      assert u[i] == '"';
    } else {
      assert name[0] in name && u[i] == name[0];
      assert u[i + 1..] == u[i..][1..] == name[1..] + "\"" + rest;
      assert forall c <- name[1..] :: c in name;
      NameSkipped(u, i + 1, name[1..], rest);
    }
  }

  lemma CallNameBack(name: string, rest: string)
    requires forall c <- name :: IsIdent(c)
    ensures CallName(Call(name) + rest) == Some(name)
  {
    var s := Call(name) + rest;
    LStripNone(s);
    var quoted := s[1..];
    assert quoted == "\"" + name + "\")" + rest;
    LStripNone(quoted);
    assert quoted[1..] == name + "\"" + (")" + rest);
    NameSkipped(quoted, 1, name, ")" + rest);
    assert quoted[1..|name| + 1] == name;
  }

  lemma GenericInside(d: Declaration)
    requires Declares(d)
    ensures AllReadable(Generic(d).inner) && Readable(Generic(d))
    ensures Show(Generic(d).inner) == "[" + Show(Listed(d.args)) + "]" + (", " + Show(d.ret))
  {
    InnerReadable(d);
    var shown := Show(Generic(d).inner);
    if d.ret != [] { FirstShown(d.ret, ""); assert shown[|shown| - 1] == Show(d.ret)[|Show(d.ret)| - 1]; }
  }

  lemma ElementsBack(d: Declaration)
    requires Declares(d)
    ensures var elements := Split(Show(Generic(d).inner));
            elements != [] && elements[0] == "[" + Show(Listed(d.args)) + "]"
  {
    GenericInside(d);
    ListedIsReadable(d.args);
    var tuple := Group('[', Listed(d.args));
    var inner := Show(Generic(d).inner);
    var after := ", " + Show(d.ret);
    assert inner == ShowPiece(tuple) + after;
    PartsPiece(tuple, after, 0, "");
    assert "" + ShowPiece(tuple) == ShowPiece(tuple);
    assert !IsSpace(inner[0]);
  }

  lemma ReadSteps(s: string, k: nat, name: string)
    requires s != "" && s[0] == '<' && 1 < k <= |s| && Captured(s, 0) == Some(k)
    requires Split(s[1..k - 1]) != [] && CallName(s[k..]) == Some(name)
    ensures ReadDeclaration(s) == Some((name, Arity(Split(s[1..k - 1])[0]), k))
  {
    LStripNone(s);
  }

  /** A printed declaration reads back as its name and its number of arguments. */
  lemma DeclarationBack(d: Declaration, rest: string)
    requires Declares(d)
    ensures ReadDeclaration(ShowPiece(Generic(d)) + (Call(d.name) + rest)) ==
            Some((d.name, |d.args|, |ShowPiece(Generic(d))|))
  {
    var generic := ShowPiece(Generic(d));
    var s := generic + (Call(d.name) + rest);
    var inner, tuple := Show(Generic(d).inner), "[" + Show(Listed(d.args)) + "]";
    assert generic == ['<'] + inner + ['>'];
    assert s[1..|generic| - 1] == inner && s[|generic|..] == Call(d.name) + rest;
    assert Captured(s, 0) == Some(|generic|) by { CapturedGeneric(d, Call(d.name) + rest); }
    assert Split(inner) != [] && Split(inner)[0] == tuple by { ElementsBack(d); }
    assert Arity(tuple) == |d.args| by { TupleArity(d.args); }
    assert CallName(s[|generic|..]) == Some(d.name) by { CallNameBack(d.name, rest); }
    ReadSteps(s, |generic|, d.name);
  }

  lemma CapturedGeneric(d: Declaration, rest: string)
    requires Declares(d)
    ensures Captured(ShowPiece(Generic(d)) + rest, 0) == Some(|ShowPiece(Generic(d))|)
  {
    GenericInside(d);
    var p := Generic(d);
    GroupSteps(p, rest);
    CapturedOver(p.inner, [Closing(p.open)] + rest, 1);
  }

  // ---- reading a whole document back ---------------------------------------------------------------

  lemma MarkerNeedsIdents(s: string, i: nat)
    requires i < |s| && i < 8 && !IsIdent(s[i])
    ensures !Marked(s)
  {
  }

  lemma NotHere(before: char, s: string)
    requires s != "" && !(Marked(s) && !IsIdent(before))
    ensures NextName(before, s) == Plus(1, NextName(s[0], s[1..]))
  {
  }

  /** The search runs over quiet text to what follows it. */
  lemma {:induction false} QuietSkipped(before: char, lead: string, rest: string)
    requires Quiet(lead) && lead != ""
    ensures NextName(before, lead + rest) == Plus(|lead|, NextName(lead[|lead| - 1], rest))
    decreases |lead|
  {
    var s := lead + rest;
    assert lead[0..] == lead && !Marked(lead[0..]);
    assert !Marked(s) by { MarkerOrNot(lead, rest); }
    NotHere(before, s);
    assert s[1..] == lead[1..] + rest;
    if |lead| == 1 {
      assert lead[1..] == "" && s[1..] == rest;
    } else {
      assert forall i :: 0 <= i <= |lead| - 1 ==> lead[1..][i..] == lead[i + 1..];
      QuietSkipped(lead[0], lead[1..], rest);
    }
  }

  lemma MarkerOrNot(lead: string, rest: string)
    requires lead != "" && !Marked(lead) && !IsIdent(lead[|lead| - 1])
    ensures !Marked(lead + rest)
  {
    if |lead| <= 8 {
      MarkerNeedsIdents(lead + rest, |lead| - 1);
    } else {
      assert forall i :: 0 <= i < 8 ==> (lead + rest)[i] == lead[i];
    }
  }

  lemma {:induction false} QuietTail(before: char, tail: string)
    requires forall i :: 0 <= i <= |tail| ==> !Marked(tail[i..])
    ensures NextName(before, tail) == None
    decreases |tail|
  {
    assert tail[0..] == tail && !Marked(tail[0..]);
    if tail != "" {
      assert forall i :: 0 <= i <= |tail| - 1 ==> tail[1..][i..] == tail[i + 1..];
      QuietTail(tail[0], tail[1..]);
    }
  }

  /** Inside an identifier, and past the quote and bracket behind it, nothing is found. */
  lemma {:induction false} IdentSkipped(before: char, name: string, rest: string)
    requires (forall c <- name :: IsIdent(c)) && (IsIdent(before) || !Marked(name))
    ensures NextName(before, name + ("\")" + rest)) == Plus(|name| + 2, NextName(')', rest))
    decreases |name|
  {
    var s := name + ("\")" + rest);
    assert s[|name|] == '"';
    if name == "" {
      MarkerNeedsIdents(s, 0);
      NotHere(before, s);
      assert s[1..] == ")" + rest;
      MarkerNeedsIdents(s[1..], 0);
      NotHere('"', s[1..]);
      assert s[1..][1..] == rest;
    } else {
      assert name[0] in name && forall c <- name[1..] :: c in name;
      if !IsIdent(before) { NotInName(name, rest); }
      NotHere(before, s);
      assert s[1..] == name[1..] + ("\")" + rest);
      IdentSkipped(name[0], name[1..], rest);
    }
  }

  lemma NotInName(name: string, rest: string)
    requires !Marked(name)
    ensures !Marked(name + ("\")" + rest))
  {
    var s := name + ("\")" + rest);
    assert s[|name|] == '"';
    if |name| < 8 {
      MarkerNeedsIdents(s, |name|);
    } else {
      assert forall i :: 0 <= i < 8 ==> s[i] == name[i];
    }
  }

  /** Where the search passes over text, so does the parse. */
  lemma ParsedSkips(before: char, a: string, after: char, rest: string, result: map<string, int>)
    requires NextName(before, a + rest) == Plus(|a|, NextName(after, rest))
    ensures Parsed(before, a + rest, result) == Parsed(after, rest, result)
  {
    match NextName(after, rest)
    case None =>
      NoneParsed(before, a + rest, result);
      NoneParsed(after, rest, result);
    case Some(k) =>
      var tail := rest[k + 8..];
      assert (a + rest)[|a| + k + 8..] == tail;
      FoundParsed(before, a + rest, |a| + k, tail, result);
      FoundParsed(after, rest, k, tail, result);
  }

  lemma NoneParsed(before: char, s: string, result: map<string, int>)
    requires NextName(before, s) == None
    ensures Parsed(before, s, result) == result
  {
  }

  lemma FoundParsed(before: char, s: string, k: nat, tail: string, result: map<string, int>)
    requires NextName(before, s) == Some(k) && tail == s[k + 8..]
    ensures Parsed(before, s, result) == ParsedAfter(tail, result)
  {
  }

  /** The call behind a generic yields no declaration, even where its name spells the marker. */
  lemma CallSkipped(before: char, name: string, rest: string, result: map<string, int>)
    requires forall c <- name :: IsIdent(c)
    ensures Parsed(before, Call(name) + rest, result) == Parsed(')', rest, result)
  {
    var quoted := name + ("\")" + rest);
    assert Call(name) + rest == "(\"" + quoted;
    assert Quiet("(\"") by {
      forall i | 0 <= i <= 2 ensures !Marked("(\""[i..]) {
      }
    }
    QuietSkipped(before, "(\"", quoted);
    ParsedSkips(before, "(\"", '"', quoted, result);
    assert Parsed(before, Call(name) + rest, result) == Parsed('"', quoted, result);
    if Marked(name) {
      SpelledMarkerSkipped(name, rest, result);
    } else {
      IdentSkipped('"', name, rest);
      assert quoted == (name + "\")") + rest;
      ParsedSkips('"', name + "\")", ')', rest, result);
    }
  }

  lemma SpelledMarkerSkipped(name: string, rest: string, result: map<string, int>)
    requires (forall c <- name :: IsIdent(c)) && Marked(name)
    ensures Parsed('"', name + ("\")" + rest), result) == Parsed(')', rest, result)
  {
    var quoted, left := name + ("\")" + rest), name[8..];
    var u := left + ("\")" + rest);
    assert |MARKER| == 8 && quoted[8..] == u && NextName('"', quoted) == Some(0);
    NothingDeclared(name, left, rest);
    assert forall c <- left :: c in name;
    IdentSkipped('t', left, rest);
    assert u == (left + "\")") + rest;
    ParsedSkips('t', left + "\")", ')', rest, result);
  }

  lemma NothingDeclared(name: string, left: string, rest: string)
    requires (forall c <- name :: IsIdent(c)) && |name| >= 8 && left == name[8..]
    ensures ReadDeclaration(left + ("\")" + rest)) == None
  {
    var u := left + ("\")" + rest);
    assert u[0] == (if |name| > 8 then name[8] else '"');
    assert |name| > 8 ==> name[8] in name;
    LStripNone(u);
  }

  /** What the declarations come to, recorded in order. */
  function Recorded(ds: seq<Declaration>, result: map<string, int>): map<string, int>
  {
    if ds == [] then result else Recorded(ds[1..], Record(result, ds[0].name, |ds[0].args|))
  }

  lemma {:induction false} DocumentBack(before: char, ds: seq<Declaration>, tail: string, result: map<string, int>)
    requires !IsIdent(before) && (forall i :: 0 <= i < |ds| ==> Declares(ds[i]))
    requires forall i :: 0 <= i <= |tail| ==> !Marked(tail[i..])
    ensures Parsed(before, Document(ds, tail), result) == Recorded(ds, result)
    decreases |ds|
  {
    if ds == [] {
      QuietTail(before, tail);
    } else {
      var d, doc := ds[0], Document(ds[1..], tail);
      var generic := ShowPiece(Generic(d));
      var body := generic + (Call(d.name) + doc);
      assert Document(ds, tail) == d.lead + (MARKER + body);
      var last := before;
      if d.lead != "" {
        last := d.lead[|d.lead| - 1];
        QuietSkipped(before, d.lead, MARKER + body);
        ParsedSkips(before, d.lead, last, MARKER + body, result);
      } else {
        assert d.lead + (MARKER + body) == MARKER + body;
      }
      DeclarationParsed(last, d, doc, result);
      assert forall i :: 0 <= i < |ds| - 1 ==> ds[1..][i] == ds[i + 1];
      DocumentBack(')', ds[1..], tail, Record(result, d.name, |d.args|));
    }
  }

  lemma DeclarationParsed(before: char, d: Declaration, rest: string, result: map<string, int>)
    requires !IsIdent(before) && Declares(d)
    ensures Parsed(before, MARKER + (ShowPiece(Generic(d)) + (Call(d.name) + rest)), result) ==
            Parsed(')', rest, Record(result, d.name, |d.args|))
  {
    var generic := ShowPiece(Generic(d));
    var body := generic + (Call(d.name) + rest);
    assert |MARKER| == 8 && (MARKER + body)[8..] == body;
    assert NextName(before, MARKER + body) == Some(0);
    DeclarationBack(d, rest);
    assert body[|generic|..] == Call(d.name) + rest;
    CallSkipped('>', d.name, rest, Record(result, d.name, |d.args|));
  }

  // ---- what a parse of a document says -------------------------------------------------------------

  function Count(ds: seq<Declaration>, name: string): nat
  {
    if ds == [] then 0 else (if ds[0].name == name then 1 else 0) + Count(ds[1..], name)
  }

  lemma {:induction false} RecordedIs(ds: seq<Declaration>, result: map<string, int>, name: string)
    ensures Count(ds, name) == 0 ==>
              (name in Recorded(ds, result) <==> name in result) &&
              (name in result ==> Recorded(ds, result)[name] == result[name])
    ensures Count(ds, name) > 1 || (Count(ds, name) == 1 && name in result) ==>
              name in Recorded(ds, result) && Recorded(ds, result)[name] == -1
    ensures Count(ds, name) == 1 && name !in result ==>
              name in Recorded(ds, result) &&
              exists i :: 0 <= i < |ds| && ds[i].name == name && Recorded(ds, result)[name] == |ds[i].args|
    decreases |ds|
  {
    if ds != [] {
      var next := Record(result, ds[0].name, |ds[0].args|);
      RecordedIs(ds[1..], next, name);
      assert forall i :: 0 <= i < |ds| - 1 ==> ds[1..][i] == ds[i + 1];
    }
  }

  /** Printing any list of declarations and parsing the text gives back each name declared once with the number of
      its arguments, each name declared more often with -1, and no other name. */
  lemma RoundTrip(ds: seq<Declaration>, tail: string)
    requires forall i :: 0 <= i < |ds| ==> Declares(ds[i])
    requires forall i :: 0 <= i <= |tail| ==> !Marked(tail[i..])
    ensures var parsed := Parsed(' ', Document(ds, tail), map[]);
            forall name ::
              (name in parsed <==> Count(ds, name) > 0) &&
              (Count(ds, name) == 1 ==>
                 exists i :: 0 <= i < |ds| && ds[i].name == name && parsed[name] == |ds[i].args|) &&
              (Count(ds, name) > 1 ==> parsed[name] == -1)
  {
    DocumentBack(' ', ds, tail, map[]);
    forall name { RecordedIs(ds, map[], name); }
  }

  // ---- where the reading fails ---------------------------------------------------------------------

  /** A bracket behind `=` is read as the end of an arrow and closes nothing. */
  lemma EqualsHidesBracket(ps: seq<Piece>, rest: string, depth: int)
    requires AllReadable(ps) && depth >= 1
    ensures Captured(Show(ps) + ("=>" + rest), depth) == Plus(|Show(ps)| + 2, Captured(rest, depth))
  {
    var arrow := "=>" + rest;
    CapturedOver(ps, arrow, depth);
    assert IsArrow(arrow) && arrow[2..] == rest;
  }

  /** Of the pieces only a plain `=` shows a text that ends so. */
  lemma {:induction false} LastIsEquals(ps: seq<Piece>)
    requires AllReadable(ps) && EndsInEquals(Show(ps))
    ensures ps != [] && ps[|ps| - 1] == Word('=') && AllReadable(ps[..|ps| - 1])
    ensures Show(ps) == Show(ps[..|ps| - 1]) + "="
  {
    if |ps| == 1 {
      assert Show(ps) == ShowPiece(ps[0]);
      assert ps[..0] == [];
    } else {
      var tail := ps[1..];
      FirstShown(tail, "");
      assert Show(ps)[|Show(ps)| - 1] == Show(tail)[|Show(tail)| - 1];
      LastIsEquals(tail);
      var front := ps[..|ps| - 1];
      assert front[1..] == tail[..|tail| - 1] && front[0] == ps[0];
      assert ShowPiece(ps[0]) + (Show(front[1..]) + "=") == (ShowPiece(ps[0]) + Show(front[1..])) + "=";
    }
  }

  /** So the generic of a return type that ends in `=` is never captured as it was printed. */
  lemma NotCaptured(d: Declaration, rest: string)
    requires Printable(d) && EndsInEquals(Show(d.ret))
    ensures Captured(ShowPiece(Generic(d)) + rest, 0) != Some(|ShowPiece(Generic(d))|)
  {
    var ps := Generic(d).inner;
    InnerReadable(d);
    assert Show(ps)[|Show(ps)| - 1] == Show(d.ret)[|Show(d.ret)| - 1];
    LastIsEquals(ps);
    OverrunsBracket(ps[..|ps| - 1], rest);
    assert ShowPiece(Generic(d)) == "<" + Show(ps) + ">" == "<" + Show(ps[..|ps| - 1]) + "=>";
  }

  lemma OverrunsBracket(qs: seq<Piece>, rest: string)
    requires AllReadable(qs)
    ensures Captured("<" + Show(qs) + "=>" + rest, 0) != Some(|Show(qs)| + 3)
  {
    var s := "<" + Show(qs) + "=>" + rest;
    assert Captured(s[1..], 1) == Plus(|Show(qs)| + 2, Captured(rest, 1)) by {
      assert s[1..] == Show(qs) + ("=>" + rest);
      EqualsHidesBracket(qs, rest, 1);
    }
    assert Captured(s, 0) == Plus(1, Captured(s[1..], 1)) by { StepCaptured(s, 0); }
  }

  lemma InnerReadable(d: Declaration)
    requires Printable(d)
    ensures AllReadable(Generic(d).inner)
    ensures Show(Generic(d).inner) == "[" + Show(Listed(d.args)) + "]" + (", " + Show(d.ret))
  {
    ListedIsReadable(d.args);
    CommaSpace();
    var tuple := Group('[', Listed(d.args));
    AppendReadable([Word(','), Word(' ')], d.ret);
    assert Generic(d).inner == [tuple] + ([Word(','), Word(' ')] + d.ret);
    assert [tuple][1..] == [] && Show([tuple]) == ShowPiece(tuple);
    AppendReadable([tuple], [Word(','), Word(' ')] + d.ret);
  }

  predicate ReadsBack(d: Declaration, rest: string)
  {
    ReadDeclaration(ShowPiece(Generic(d)) + (Call(d.name) + rest)) == Some((d.name, |d.args|, |ShowPiece(Generic(d))|))
  }

  /** A printed declaration reads back as its name, its arity and its extent exactly when its return type does not end
      in `=`. */
  lemma ReadsBackExactly(d: Declaration, rest: string)
    requires Printable(d)
    ensures ReadsBack(d, rest) <==> !EndsInEquals(Show(d.ret))
  {
    var s := ShowPiece(Generic(d)) + (Call(d.name) + rest);
    if EndsInEquals(Show(d.ret)) {
      NotCaptured(d, Call(d.name) + rest);
      LStripNone(s);
    } else {
      DeclarationBack(d, rest);
    }
  }

  /** One that does not: `endpoint<[], =>("f")`. */
  lemma NotReadBack() returns (d: Declaration)
    ensures Printable(d) && ShowPiece(Generic(d)) == "<[], =>"
    ensures ReadDeclaration("<[], =>" + (Call(d.name) + "")) != Some((d.name, |d.args|, 7))
  {
    d := Declaration("", [], [Word('=')], "f");
    assert |MARKER| == 8;
    var ret := d.ret;
    assert ret[1..] == [] && Show(ret) == "=";
    InnerReadable(d);
    assert ShowPiece(Generic(d)) == "<[], =>" by {
      assert ShowPiece(Generic(d)) == "<" + ("[" + "" + "]" + (", " + "=")) + ">";
    }
    assert !ReadsBack(d, "") by { ReadsBackExactly(d, ""); }
  }
}
