/** Shell code as it is printed, with substitutions and `case` statements nested in any way, and what the masker shows
    of it. */
module Scripts {
  import opened Options
  import opened Shell
  import opened Mask

  // ---- what is printed ------------------------------------------------------------------------------

  /** A word or a number; a blank, a newline or an operator; `$word`; a single-quoted and a double-quoted string; a
      subshell; a substitution; `case subject in arms esac`. */
  datatype Piece =
    | Name(word: string)
    | Mark(sign: char)
    | Variable(word: string)
    | Quoted(text: string)
    | Doubled(parts: seq<Part>)
    | Group(body: seq<Piece>)
    | Substitution(body: seq<Piece>)
    | Cases(subject: seq<Piece>, arms: seq<Arm>, gap: string)

  /** Of a double-quoted string: text, or a substitution. */
  datatype Part = Chars(text: string) | Inner(body: seq<Piece>)

  /** `pattern) body ;;`, or with a parenthesis before the pattern, or with another terminator. */
  datatype Arm = Arm(gap: string, bracketed: bool, pattern: seq<Piece>, body: seq<Piece>, end: string)

  function Show(ps: seq<Piece>): string
    decreases ps, 0
  {
    if ps == [] then "" else ShowPiece(ps[0]) + Show(ps[1..])
  }

  function ShowPiece(p: Piece): string
    decreases p, 0
  {
    match p
    case Name(word) => word
    case Mark(sign) => [sign]
    case Variable(word) => "$" + (word + "")
    case Quoted(text) => "'" + (text + "'")
    case Doubled(parts) => "\"" + (ShowParts(parts) + "\"")
    case Group(body) => "(" + (Show(body) + ")")
    case Substitution(body) => "$(" + (Show(body) + ")")
    case Cases(subject, arms, gap) => "case" + (Show(subject) + ShowBody(arms, gap))
  }

  /** What stands behind the subject. */
  function ShowBody(arms: seq<Arm>, gap: string): string
    decreases arms, 1
  {
    "in" + (ShowArms(arms) + (gap + "esac"))
  }

  function ShowParts(parts: seq<Part>): string
    decreases parts, 0
  {
    if parts == [] then "" else ShowPart(parts[0]) + ShowParts(parts[1..])
  }

  function ShowPart(p: Part): string
    decreases p, 0
  {
    match p
    case Chars(text) => text
    case Inner(body) => "$(" + (Show(body) + ")")
  }

  function ShowArms(arms: seq<Arm>): string
    decreases arms, 0
  {
    if arms == [] then "" else ShowArm(arms[0]) + ShowArms(arms[1..])
  }

  function ShowArm(a: Arm): string
    decreases a, 1
  {
    a.gap + (Lead(a) + (Show(a.pattern) + ShowBehind(a)))
  }

  function ShowBehind(a: Arm): string
    decreases a, 0
  {
    ")" + (Show(a.body) + a.end)
  }

  function Lead(a: Arm): string { if a.bracketed then "(" else "" }

  // ---- what shows -----------------------------------------------------------------------------------------

  /** All of the code, with only the quoted text blanked. */
  function Seen(ps: seq<Piece>): string
    decreases ps, 0
  {
    if ps == [] then "" else SeenPiece(ps[0]) + Seen(ps[1..])
  }

  function SeenPiece(p: Piece): string
    decreases p, 0
  {
    match p
    case Name(word) => word
    case Mark(sign) => [sign]
    case Variable(word) => "$" + (word + "")
    case Quoted(text) => " " + (Blanks(text) + " ")
    case Doubled(parts) => " " + (SeenParts(parts) + " ")
    case Group(body) => "(" + (Seen(body) + ")")
    case Substitution(body) => "$(" + (Seen(body) + ")")
    case Cases(subject, arms, gap) => "case" + (Seen(subject) + SeenBody(arms, gap))
  }

  function SeenBody(arms: seq<Arm>, gap: string): string
    decreases arms, 1
  {
    "in" + (SeenArms(arms) + (gap + "esac"))
  }

  function SeenParts(parts: seq<Part>): string
    decreases parts, 0
  {
    if parts == [] then "" else SeenPart(parts[0]) + SeenParts(parts[1..])
  }

  function SeenPart(p: Part): string
    decreases p, 0
  {
    match p
    case Chars(text) => Blanks(text)
    case Inner(body) => "$(" + (Seen(body) + ")")
  }

  function SeenArms(arms: seq<Arm>): string
    decreases arms, 0
  {
    if arms == [] then "" else SeenArm(arms[0]) + SeenArms(arms[1..])
  }

  function SeenArm(a: Arm): string
    decreases a, 1
  {
    a.gap + (Lead(a) + (Seen(a.pattern) + SeenBehind(a)))
  }

  function SeenBehind(a: Arm): string
    decreases a, 0
  {
    ")" + (Seen(a.body) + a.end)
  }

  // ---- what can be printed ----------------------------------------------------------------------------------

  /** A quote, a backslash, a parenthesis, a dollar sign or a hash. */
  predicate IsSpecial(c: char)
  {
    c == '\'' || c == '"' || c == '`' || c == '\\' || c == '(' || c == ')' || c == '$' || c == '#'
  }

  predicate IsGap(c: char) { c == ' ' || c == '\t' || c == '\n' }

  /** What the masker looks for. */
  predicate IsSign(c: char) { IsSpecial(c) || IsGap(c) || c == ';' || c == '&' || c == '|' || c == '<' || c == '{' }

  /** A letter of `case`, `in` or `esac`. */
  predicate InKeyword(c: char) { c == 'c' || c == 'a' || c == 's' || c == 'e' || c == 'i' || c == 'n' }

  /** No character the masker looks for is part of a word, and the letters of its three keywords are letters. */
  ghost predicate Ordinary(l: Letters)
  {
    (forall c {:trigger IsSign(c)} :: IsSign(c) ==> !l.InWord(c)) &&
    forall c {:trigger InKeyword(c)} :: InKeyword(c) ==> c in l.alpha
  }

  /** The first character of the text, or of what follows it. */
  function First(t: string, next: char): char { if t == "" then next else t[0] }

  /** Text that neither closes the quotes it stands in nor opens anything. */
  predicate Held(kind: Kind, t: string)
  {
    (kind == Single || kind == Double) && forall x <- t :: HeldAt(kind, x)
  }

  predicate HeldAt(kind: Kind, c: char)
  {
    if kind == Single then c != '\'' else c != '"' && c != '\\' && c != '$' && c != '`'
  }

  /** What ends an arm. */
  predicate IsEnd(end: string) { end == ";;" || end == ";&" || end == ";;&" }

  predicate IsWord(l: Letters, w: string) { w != "" && forall c <- w :: l.InWord(c) }

  predicate IsBlank(gap: string) { forall c <- gap :: IsGap(c) }

  /** The state of the `case` behind a piece: only an `in` changes it, and only inside a `case`. */
  function Behind(at: Case, p: Piece): Case
  {
    if p == Name("in") && at.depth > 0 then at.(expecting := true) else at
  }

  function After(at: Case, ps: seq<Piece>): Case
    decreases ps
  {
    if ps == [] then at else After(Behind(at, ps[0]), ps[1..])
  }

  lemma {:induction false} AfterIsInside(at: Case, ps: seq<Piece>)
    ensures After(at, ps).depth == at.depth && (at.Sound() ==> After(at, ps).Sound())
    ensures at.depth == 0 || at.expecting ==> After(at, ps) == at
    decreases ps
  {
    if ps != [] { AfterIsInside(Behind(at, ps[0]), ps[1..]); }
  }

  /** The pieces can stand together where the state of the `case` is `at`, before `next`. */
  predicate Printable(l: Letters, ps: seq<Piece>, at: Case, next: char)
    decreases ps, 0
  {
    ps == [] ||
    (PrintablePiece(l, ps[0], at, First(Show(ps[1..]), next)) && Printable(l, ps[1..], Behind(at, ps[0]), next))
  }

  predicate PrintablePiece(l: Letters, p: Piece, at: Case, next: char)
    decreases p, 0
  {
    match p
    case Name(word) =>
      IsWord(l, word) && !l.InWord(next) && word != "case" && (at.depth == 0 || word != "esac")
    case Mark(sign) =>
      !l.InWord(sign) && !IsSpecial(sign) && (sign == '<' ==> next != '<') &&
      (sign == ';' ==> next != ';' && next != '&')
    case Variable(word) => IsWord(l, word) && !l.InWord(next)
    case Quoted(text) => Held(Single, text)
    case Doubled(parts) => PrintableParts(l, parts)
    case Group(body) => !at.expecting && Printable(l, body, FRESH, ')')
    case Substitution(body) => Printable(l, body, FRESH, ')') && First(Show(body), ')') != '('
    case Cases(subject, arms, gap) =>
      !at.expecting && PrintableSubject(l, subject, Case(at.depth + 1, false)) &&
      PrintableBody(l, arms, gap, Case(at.depth + 1, false)) && !l.InWord(next)
  }

  predicate PrintableSubject(l: Letters, subject: seq<Piece>, inside: Case)
    decreases subject, 1
  {
    !l.InWord(First(Show(subject), 'i')) && Printable(l, subject, inside, 'i')
  }

  predicate PrintableBody(l: Letters, arms: seq<Arm>, gap: string, inside: Case)
    decreases arms, 1
  {
    !l.InWord(First(ShowArms(arms), First(gap, 'e'))) && PrintableArms(l, arms, inside, First(gap, 'e')) && IsBlank(gap)
  }

  predicate PrintableParts(l: Letters, parts: seq<Part>)
    decreases parts, 0
  {
    parts == [] || (PrintablePart(l, parts[0]) && PrintableParts(l, parts[1..]))
  }

  predicate PrintablePart(l: Letters, p: Part)
    decreases p, 0
  {
    match p
    case Chars(text) => Held(Double, text)
    case Inner(body) => Printable(l, body, FRESH, ')') && First(Show(body), ')') != '('
  }

  predicate PrintableArms(l: Letters, arms: seq<Arm>, inside: Case, next: char)
    decreases arms, 0
  {
    arms == [] ||
    (PrintableArm(l, arms[0], inside, First(ShowArms(arms[1..]), next)) && PrintableArms(l, arms[1..], inside, next))
  }

  predicate PrintableArm(l: Letters, a: Arm, inside: Case, next: char)
    decreases a, 0
  {
    IsBlank(a.gap) && Printable(l, a.pattern, inside.(expecting := true), ')') && Printable(l, a.body, inside, ';') &&
    IsEnd(a.end) && (a.end == ";;" ==> next != '&')
  }

  // ---- where text stands --------------------------------------------------------------------------------------

  predicate At(s: string, i: nat, t: string)
  {
    i + |t| <= |s| && forall k {:trigger t[k]} :: 0 <= k < |t| ==> s[i + k] == t[k]
  }

  lemma AtIsSlice(s: string, i: nat, t: string)
    requires At(s, i, t)
    ensures s[i..i + |t|] == t
  {
  }

  function CharAt(s: string, i: nat): char { if i < |s| then s[i] else ' ' }

  lemma AtBoth(s: string, i: nat, a: string, b: string)
    requires At(s, i, a + b)
    ensures At(s, i, a) && At(s, i + |a|, b)
    ensures First(b, CharAt(s, i + |a + b|)) == CharAt(s, i + |a|)
    ensures First(a, CharAt(s, i + |a|)) == CharAt(s, i)
  {
    var t := a + b;
    forall k | 0 <= k < |a| ensures s[i + k] == a[k] { assert t[k] == a[k]; }
    forall k | 0 <= k < |b| ensures s[i + |a| + k] == b[k] { assert t[|a| + k] == b[k]; }
    if b != "" { assert s[i + |a|] == b[0]; }
    if a != "" { assert s[i] == a[0]; }
  }

  lemma AtFirst(s: string, i: nat, t: string)
    requires t != "" && At(s, i, t)
    ensures s[i] == t[0] && t[0] in t && At(s, i + 1, t[1..]) && [t[0]] + t[1..] == t
  {
    var u := t[1..];
    forall k | 0 <= k < |u| ensures s[i + 1 + k] == u[k] { assert u[k] == t[k + 1]; }
  }

  /** Something enclosed between two others. */
  lemma AtEnclosed(s: string, i: nat, a: string, t: string, b: string)
    requires At(s, i, a + (t + b))
    ensures At(s, i, a) && At(s, i + |a|, t) && At(s, i + |a| + |t|, b)
    ensures First(t + b, CharAt(s, i + |a| + |t| + |b|)) == CharAt(s, i + |a|)
    ensures b != "" ==> CharAt(s, i + |a| + |t|) == b[0]
  {
    AtBoth(s, i, a, t + b);
    AtBoth(s, i + |a|, t, b);
    if b != "" { AtFirst(s, i + |a| + |t|, b); }
  }

  /** A word can begin here, or none does. */
  predicate Break(l: Letters, s: string, i: nat)
    requires i <= |s|
  {
    l.InWord(CharAt(s, i)) ==> !l.InWord(Before(s, i, ' ')) && Before(s, i, ' ') != '$'
  }

  // ---- from one place of a run to another ----------------------------------------------------------------------

  /** Where the scan stands, and what it has left of the text so far. */
  datatype Place = Place(at: Config, seen: string)

  /** One round, and none at the end of the text. */
  function Round(l: Letters, s: string, p: Place): Place
  {
    if p.at.index <= |s| && p.at.Goes(s) then
      var (blank, next) := Next(l, s, p.at);
      Place(next, p.seen + Left(s, p.at.index, next.index, blank))
    else p
  }

  function Rounds(l: Letters, s: string, p: Place, n: nat): Place
    decreases n
  {
    if n == 0 then p else Rounds(l, s, Round(l, s, p), n - 1)
  }

  lemma {:induction false} RoundsAdd(l: Letters, s: string, p: Place, n: nat, m: nat)
    ensures Rounds(l, s, p, n + m) == Rounds(l, s, Rounds(l, s, p, n), m)
    decreases n
  {
    if n > 0 { RoundsAdd(l, s, Round(l, s, p), n - 1, m); }
  }

  lemma {:induction false} RoundsStay(l: Letters, s: string, p: Place, n: nat)
    requires Round(l, s, p) == p
    ensures Rounds(l, s, p, n) == p
  {
    if n > 0 { RoundsStay(l, s, p, n - 1); }
  }

  /** The run comes from `a` to `b`, and leaves `seen` of what lies between. */
  ghost predicate Passes(l: Letters, s: string, a: Config, b: Config, seen: string)
  {
    exists n: nat, due: bool :: Lands(l, s, a, b.(due := due), seen, n)
  }

  ghost predicate Lands(l: Letters, s: string, a: Config, b: Config, seen: string, n: nat)
  {
    a.index <= b.index <= |s| &&
    forall so: string {:trigger Rounds(l, s, Place(a, so), n)} ::
      Rounds(l, s, Place(a, so), n) == Place(b, so + seen)
  }

  predicate Ready(c: Config) { c.levels != [] && c.pending == [] }

  /** With nothing pending it does not matter whether anything is due. */
  lemma RoundIsIdle(l: Letters, s: string, c: Config, due: bool, so: string)
    requires c.pending == [] && c.Goes(s)
    ensures Round(l, s, Place(c.(due := due), so)) == Round(l, s, Place(c, so))
  {
    IdleNext(l, s, c, due);
  }

  lemma RoundStays(l: Letters, s: string, c: Config, so: string)
    requires !c.Goes(s)
    ensures Round(l, s, Place(c, so)) == Place(c, so)
  {
  }

  lemma LandsIdle(l: Letters, s: string, b: Config, due: bool, c: Config, y: string, m: nat) returns (now: Config)
    requires b.pending == [] && Lands(l, s, b, c, y, m)
    ensures now == c.(due := now.due) && Lands(l, s, b.(due := due), now, y, m)
  {
    assert Rounds(l, s, Place(b, ""), m) == Place(c, "" + y);
    if m > 0 && b.Goes(s) {
      now := c;
      forall so: string ensures Rounds(l, s, Place(b.(due := due), so), m) == Place(c, so + y) {
        RoundIsIdle(l, s, b, due, so);
        assert Rounds(l, s, Place(b, so), m) == Place(c, so + y);
      }
    } else {
      now := c.(due := due);
      forall so: string ensures Rounds(l, s, Place(b.(due := due), so), m) == Place(now, so + y) {
        if m > 0 {
          RoundStays(l, s, b, so);
          RoundStays(l, s, b.(due := due), so);
          RoundsStay(l, s, Place(b, so), m);
          RoundsStay(l, s, Place(b.(due := due), so), m);
        }
        assert Rounds(l, s, Place(b, so), m) == Place(c, so + y);
      }
    }
  }

  lemma RoundsOn(l: Letters, s: string, a: Config, b: Config, c: Config, x: string, y: string, n: nat, m: nat,
                 so: string)
    requires Rounds(l, s, Place(a, so), n) == Place(b, so + x)
    requires Rounds(l, s, Place(b, so + x), m) == Place(c, so + x + y)
    ensures Rounds(l, s, Place(a, so), n + m) == Place(c, so + (x + y))
  {
    RoundsAdd(l, s, Place(a, so), n, m);
    assert so + x + y == so + (x + y);
  }

  lemma LandsOn(l: Letters, s: string, a: Config, b: Config, c: Config, x: string, y: string, n: nat, m: nat)
    requires Lands(l, s, a, b, x, n) && Lands(l, s, b, c, y, m)
    ensures Lands(l, s, a, c, x + y, n + m)
  {
    forall so: string ensures Rounds(l, s, Place(a, so), n + m) == Place(c, so + (x + y)) {
      assert Rounds(l, s, Place(a, so), n) == Place(b, so + x);
      assert Rounds(l, s, Place(b, so + x), m) == Place(c, so + x + y);
      RoundsOn(l, s, a, b, c, x, y, n, m, so);
    }
  }

  lemma PassesOn(l: Letters, s: string, a: Config, b: Config, c: Config, x: string, y: string)
    requires Ready(b) && Passes(l, s, a, b, x) && Passes(l, s, b, c, y)
    ensures Passes(l, s, a, c, x + y)
  {
    var n: nat, due: bool :| Lands(l, s, a, b.(due := due), x, n);
    var m: nat, later: bool :| Lands(l, s, b, c.(due := later), y, m);
    var now := LandsIdle(l, s, b, due, c.(due := later), y, m);
    LandsOn(l, s, a, b.(due := due), now, x, y, n, m);
    assert now == c.(due := now.due);
  }

  lemma Joined(l: Letters, s: string, c: Config, j: nat, k: nat, x: string, y: string)
    requires Ready(c) && Passes(l, s, c, c.To(j), x) && Passes(l, s, c.To(j), c.To(j).To(k), y)
    ensures Passes(l, s, c, c.To(k), x + y)
  {
    PassesOn(l, s, c, c.To(j), c.To(k), x, y);
  }

  /** Through a level of its own. */
  lemma PassesThrough(l: Letters, s: string, c: Config, kind: Kind, i: nat, j: nat, k: nat, x: string, y: string,
                      z: string)
    requires Ready(c) && Passes(l, s, c, c.To(i).Push(kind), x)
    requires Passes(l, s, c.To(i).Push(kind), c.To(i).Push(kind).To(j), y)
    requires Passes(l, s, c.To(j).Push(kind), c.To(k), z)
    ensures Passes(l, s, c, c.To(k), x + (y + z))
  {
    assert c.To(i).Push(kind).To(j) == c.To(j).Push(kind);
    PassesOn(l, s, c.To(i).Push(kind), c.To(j).Push(kind), c.To(k), y, z);
    PassesOn(l, s, c, c.To(i).Push(kind), c.To(k), x, y + z);
  }

  lemma Stays(l: Letters, s: string, c: Config)
    requires c.index <= |s|
    ensures Passes(l, s, c, c.To(c.index), "")
  {
    assert c.To(c.index).(due := c.due) == c;
    assert forall so: string :: so + "" == so;
    assert Lands(l, s, c, c.To(c.index).(due := c.due), "", 0);
  }

  /** One round. */
  lemma OneRound(l: Letters, s: string, a: Config, blank: bool, b: Config, due: bool)
    requires a.Goes(s) && a.index <= b.index <= |s| && Next(l, s, a) == (blank, b.(due := due))
    ensures Passes(l, s, a, b, Left(s, a.index, b.index, blank))
  {
    forall so: string
      ensures Rounds(l, s, Place(a, so), 1) == Place(b.(due := due), so + Left(s, a.index, b.index, blank))
    {
      assert Rounds(l, s, Place(a, so), 1) == Rounds(l, s, Round(l, s, Place(a, so)), 0);
    }
    assert Lands(l, s, a, b.(due := due), Left(s, a.index, b.index, blank), 1);
  }

  /** What a run leaves is what the masked text shows there, and where it comes to is where that many rounds lead. */
  lemma {:induction false} PlaceIsRun(l: Letters, s: string, c: Config, so: string, n: nat)
    requires c.index <= |s|
    ensures var p := Rounds(l, s, Place(c, so), n);
            p.at == Run(l, s, c, n) && p.seen + MaskFrom(l, s, p.at) == so + MaskFrom(l, s, c)
    decreases n
  {
    if n > 0 {
      RoundOfRun(l, s, c, so, n);
      var p := Round(l, s, Place(c, so));
      PlaceIsRun(l, s, p.at, p.seen, n - 1);
    }
  }

  lemma RoundOfRun(l: Letters, s: string, c: Config, so: string, n: nat)
    requires n > 0 && c.index <= |s|
    ensures var p := Round(l, s, Place(c, so));
            p.at.index <= |s| && Run(l, s, c, n) == Run(l, s, p.at, n - 1) &&
            p.seen + MaskFrom(l, s, p.at) == so + MaskFrom(l, s, c)
  {
    if c.Goes(s) {
      var (blank, next) := Next(l, s, c);
      var left, rest := Left(s, c.index, next.index, blank), MaskFrom(l, s, next);
      assert MaskFrom(l, s, c) == left + rest by { MaskStep(l, s, c, blank, next); }
      assert Round(l, s, Place(c, so)) == Place(next, so + left);
      Regrouped(so, left, rest);
    }
  }

  // ---- single rounds in code ------------------------------------------------------------------------------------

  /** Code at `i` of a run, nothing pending. */
  predicate AtCode(s: string, c: Config) { Ready(c) && InCode(c.Top().kind) && c.index < |s| }

  /** One round in code. */
  lemma CodeRound(l: Letters, s: string, c: Config, blank: bool, b: Config)
    requires AtCode(s, c) && s[c.index] != '\n' && s[c.index] != '\\' && NextInCode(l, s, c) == (blank, b)
    requires b.pending == [] && !b.due
    ensures Passes(l, s, c, b, Left(s, c.index, b.index, blank))
  {
    assert Next(l, s, c) == (blank, b);
    assert b == b.(due := false);
    OneRound(l, s, c, blank, b, false);
  }

  /** A character that says nothing. */
  predicate Plain(l: Letters, s: string, i: nat)
    requires i < |s|
  {
    s[i] == '\n' ||
    (!IsSpecial(s[i]) && !OpensAHeredoc(l, s, i) && Terminator(s, i) == 0 && !StartsAWord(l, s, i))
  }

  lemma PlainRound(l: Letters, s: string, c: Config)
    requires AtCode(s, c) && Plain(l, s, c.index)
    ensures Passes(l, s, c, c.To(c.index + 1), [s[c.index]])
  {
    if s[c.index] == '\n' {
      NewlineRound(l, s, c);
    } else {
      PlainNext(l, s, c);
      CodeRound(l, s, c, false, c.To(c.index + 1));
      assert s[c.index..c.index + 1] == [s[c.index]];
    }
  }

  lemma NewlineRound(l: Letters, s: string, c: Config)
    requires Ready(c) && c.index < |s| && s[c.index] == '\n'
    ensures Passes(l, s, c, c.To(c.index + 1), "\n")
  {
    assert Next(l, s, c) == (false, c.To(c.index + 1).(due := true));
    OneRound(l, s, c, false, c.To(c.index + 1), true);
    assert s[c.index..c.index + 1] == "\n";
  }

  lemma PlainNext(l: Letters, s: string, c: Config)
    requires AtCode(s, c) && s[c.index] != '\n' && Plain(l, s, c.index)
    ensures NextInCode(l, s, c) == (false, c.To(c.index + 1))
  {
  }

  lemma NotInWord(l: Letters, c: char)
    requires Ordinary(l) && IsSign(c)
    ensures !l.InWord(c)
  {
  }

  /** A dollar sign before a word. */
  lemma DollarRound(l: Letters, s: string, c: Config)
    requires Ordinary(l) && AtCode(s, c) && s[c.index] == '$' && l.InWord(CharAt(s, c.index + 1))
    ensures Passes(l, s, c, c.To(c.index + 1), "$")
  {
    assert s[c.index + 1] != '(' && s[c.index + 1] != '{' by {
      NotInWord(l, '(');
      NotInWord(l, '{');
      NotInWord(l, ' ');
    }
    DollarIsPlain(l, s, c.index);
    DollarNext(l, s, c);
    CodeRound(l, s, c, false, c.To(c.index + 1));
    assert s[c.index..c.index + 1] == "$";
  }

  lemma DollarIsPlain(l: Letters, s: string, i: nat)
    requires Ordinary(l) && i < |s| && s[i] == '$'
    ensures Terminator(s, i) == 0 && !StartsAWord(l, s, i) && !OpensAHeredoc(l, s, i)
  {
    NotInWord(l, '$');
    assert s[i..][0] == '$';
  }

  lemma DollarNext(l: Letters, s: string, c: Config)
    requires AtCode(s, c) && s[c.index] == '$' && CharAt(s, c.index + 1) != '(' && CharAt(s, c.index + 1) != '{'
    requires Terminator(s, c.index) == 0 && !StartsAWord(l, s, c.index) && !OpensAHeredoc(l, s, c.index)
    ensures NextInCode(l, s, c) == (false, c.To(c.index + 1))
  {
  }

  /** A whole word. */
  lemma WordRound(l: Letters, s: string, c: Config, w: string)
    requires Ordinary(l) && AtCode(s, c) && At(s, c.index, w) && IsWord(l, w) && StartsAWord(l, s, c.index)
    requires !l.InWord(CharAt(s, c.index + |w|))
    ensures Passes(l, s, c, c.To(c.index + |w|).WithCase(c.Top().cases.Heard(w)), w)
  {
    assert s[c.index] == w[0] && w[0] in w;
    WordStepped(l, s, c.index, w, c.Top().cases);
    InNoOtherWay(l, s, c.index);
    SteppedNext(l, s, c);
    CodeRound(l, s, c, false, c.To(c.index + |w|).WithCase(c.Top().cases.Heard(w)));
    AtIsSlice(s, c.index, w);
  }

  /** What a word or a terminator makes of the round. */
  lemma SteppedNext(l: Letters, s: string, c: Config)
    requires AtCode(s, c) && !IsSpecial(s[c.index]) && !OpensAHeredoc(l, s, c.index)
    requires s[c.index] != '\n' && c.Top().cases.Stepped(l, s, c.index).Some?
    ensures var (end, now) := c.Top().cases.Stepped(l, s, c.index).value;
            NextInCode(l, s, c) == (false, c.To(end).WithCase(now))
  {
  }

  /** What is part of a word is none of the characters the masker looks for. */
  lemma InNoOtherWay(l: Letters, s: string, i: nat)
    requires Ordinary(l) && i < |s| && l.InWord(s[i])
    ensures !IsSign(s[i]) && Terminator(s, i) == 0 && !OpensAHeredoc(l, s, i)
  {
    assert s[i..][0] == s[i];
  }

  lemma WordStepped(l: Letters, s: string, i: nat, w: string, at: Case)
    requires Ordinary(l) && At(s, i, w) && IsWord(l, w) && !l.InWord(CharAt(s, i + |w|)) && StartsAWord(l, s, i)
    ensures at.Stepped(l, s, i) == Some((i + |w|, at.Heard(w)))
  {
    assert s[i] == w[0] && w[0] in w;
    InNoOtherWay(l, s, i);
    WordEndsAt(l, s, i, w, 0);
    AtIsSlice(s, i, w);
  }

  lemma {:induction false} WordEndsAt(l: Letters, s: string, i: nat, w: string, k: nat)
    requires At(s, i, w) && (forall c <- w :: l.InWord(c)) && !l.InWord(CharAt(s, i + |w|)) && k <= |w|
    ensures WordEnd(l, s, i + k) == i + |w|
    decreases |w| - k
  {
    if k < |w| {
      assert s[i + k] == w[k];
      WordEndsAt(l, s, i, w, k + 1);
    }
  }

  /** The terminator of an arm: a pattern is expected behind it. */
  lemma TerminatorRound(l: Letters, s: string, c: Config, end: string)
    requires AtCode(s, c) && At(s, c.index, end) && (end == ";;" || end == ";&" || end == ";;&")
    requires end == ";;" ==> CharAt(s, c.index + 2) != '&'
    ensures Passes(l, s, c, c.To(c.index + |end|).WithCase(Case(c.Top().cases.depth, c.Top().cases.depth > 0)), end)
  {
    var i := c.index;
    assert s[i] == end[0] == ';';
    TerminatorAt(s, i, end);
    assert !OpensAHeredoc(l, s, i) by { assert s[i..][0] == ';'; }
    SteppedNext(l, s, c);
    CodeRound(l, s, c, false, c.To(i + |end|).WithCase(Case(c.Top().cases.depth, c.Top().cases.depth > 0)));
    AtIsSlice(s, i, end);
  }

  lemma TerminatorAt(s: string, i: nat, end: string)
    requires At(s, i, end) && (end == ";;" || end == ";&" || end == ";;&")
    requires end == ";;" ==> CharAt(s, i + 2) != '&'
    ensures Terminator(s, i) == |end|
  {
    AtIsSlice(s, i, end);
    var t := s[i..];
    assert t[..|end|] == end;
    assert |t| > 2 ==> t[2] == s[i + 2];
  }

  /** A parenthesis where no pattern is expected opens a level, and its partner closes it. Where one is expected, the
      one before the pattern opens nothing, and the one behind it ends it. */
  lemma OpenNext(l: Letters, s: string, c: Config)
    requires AtCode(s, c) && s[c.index] == '('
    ensures NextInCode(l, s, c) ==
            (false, if c.Top().cases.OpensAPattern() then c.To(c.index + 1) else c.To(c.index + 1).Push(Code))
  {
  }

  lemma CloseNext(l: Letters, s: string, c: Config)
    requires AtCode(s, c) && s[c.index] == ')'
    ensures NextInCode(l, s, c) == (false, NextAtClosing(c))
  {
  }

  lemma OpenRound(l: Letters, s: string, c: Config)
    requires AtCode(s, c) && s[c.index] == '(' && !c.Top().cases.expecting
    ensures Passes(l, s, c, c.To(c.index + 1).Push(Code), "(")
  {
    OpenNext(l, s, c);
    CodeRound(l, s, c, false, c.To(c.index + 1).Push(Code));
    assert s[c.index..c.index + 1] == "(";
  }

  lemma CloseRound(l: Letters, s: string, c: Config, j: nat)
    requires Ready(c) && j < |s| && s[j] == ')'
    ensures Passes(l, s, c.To(j).Push(Code), c.To(j + 1), ")")
  {
    var here := c.To(j).Push(Code);
    assert here.To(j + 1).Pop() == c.To(j + 1);
    CloseNext(l, s, here);
    CodeRound(l, s, here, false, c.To(j + 1));
    assert s[j..j + 1] == ")";
  }

  lemma PatternOpenRound(l: Letters, s: string, c: Config)
    requires AtCode(s, c) && s[c.index] == '(' && c.Top().cases.OpensAPattern()
    ensures Passes(l, s, c, c.To(c.index + 1), "(")
  {
    OpenNext(l, s, c);
    CodeRound(l, s, c, false, c.To(c.index + 1));
    assert s[c.index..c.index + 1] == "(";
  }

  lemma PatternCloseRound(l: Letters, s: string, c: Config)
    requires AtCode(s, c) && s[c.index] == ')' && c.Top().cases.OpensAPattern()
    ensures Passes(l, s, c, c.To(c.index + 1).WithCase(c.Top().cases.(expecting := false)), ")")
  {
    CloseNext(l, s, c);
    CodeRound(l, s, c, false, c.To(c.index + 1).WithCase(c.Top().cases.(expecting := false)));
    assert s[c.index..c.index + 1] == ")";
  }

  /** `$(` opens a level in code and in double quotes alike. */
  lemma SubstitutionRound(l: Letters, s: string, c: Config)
    requires Ready(c) && At(s, c.index, "$(") && CharAt(s, c.index + 2) != '(' && c.Top().kind != Single
    ensures Passes(l, s, c, c.To(c.index + 2).Push(Code), "$(")
  {
    var i := c.index;
    AtIsSlice(s, i, "$(");
    assert s[i] == '$' && s[i + 1] == '(';
    if c.Top().kind == Double {
      assert Next(l, s, c) == NextInDouble(s, c);
      OneRound(l, s, c, false, c.To(i + 2).Push(Code), false);
    } else {
      SubstitutionNext(l, s, c);
      CodeRound(l, s, c, false, c.To(i + 2).Push(Code));
    }
  }

  lemma SubstitutionNext(l: Letters, s: string, c: Config)
    requires AtCode(s, c) && OpensSubstitution(s, c.index) && !OpensArithmetic(s, c.index)
    ensures NextInCode(l, s, c) == (false, c.To(c.index + 2).Push(Code))
  {
  }

  lemma QuoteRound(l: Letters, s: string, c: Config)
    requires AtCode(s, c) && (s[c.index] == '\'' || s[c.index] == '"')
    ensures Passes(l, s, c, c.To(c.index + 1).Push(if s[c.index] == '"' then Double else Single), " ")
  {
    var next := c.To(c.index + 1).Push(if s[c.index] == '"' then Double else Single);
    assert NextInCode(l, s, c) == (true, next);
    CodeRound(l, s, c, true, next);
    assert Blanks(s[c.index..c.index + 1]) == " ";
  }

  // ---- single rounds in quotes ----------------------------------------------------------------------------------

  /** A character in quotes that closes nothing and opens nothing. */
  lemma CharRound(l: Letters, s: string, c: Config, ch: char)
    requires Ready(c) && c.index < |s| && s[c.index] == ch && Held(c.Top().kind, [ch])
    ensures Passes(l, s, c, c.To(c.index + 1), Blanks([ch]))
  {
    var i := c.index;
    assert ch in [ch];
    assert s[i..i + 1] == [ch];
    if ch == '\n' {
      NewlineRound(l, s, c);
      assert Blanks([ch]) == [ch];
    } else {
      assert Next(l, s, c) == (true, c.To(i + 1));
      OneRound(l, s, c, true, c.To(i + 1), false);
    }
  }

  lemma UnquoteRound(l: Letters, s: string, c: Config, j: nat, kind: Kind)
    requires Ready(c) && j < |s| && ((kind == Single && s[j] == '\'') || (kind == Double && s[j] == '"'))
    ensures Passes(l, s, c.To(j).Push(kind), c.To(j + 1), " ")
  {
    var here := c.To(j).Push(kind);
    assert here.To(j + 1).Pop() == c.To(j + 1);
    assert Next(l, s, here) == (true, c.To(j + 1));
    OneRound(l, s, here, true, c.To(j + 1), false);
    assert Blanks(s[j..j + 1]) == " ";
  }

  // ---- words, variables, blanks and strings ----------------------------------------------------------------------

  /** In the state of the `case` the piece is read in, nothing changes; the next piece can begin behind it. */
  predicate Leaves(l: Letters, s: string, c: Config, t: string)
  {
    AtCode(s, c) && At(s, c.index, t) && Break(l, s, c.index)
  }

  /** One character of a word that does not begin as one, behind which none begins. */
  lemma LetterRound(l: Letters, s: string, c: Config)
    requires Ordinary(l) && AtCode(s, c) && l.InWord(s[c.index]) && !StartsAWord(l, s, c.index)
    ensures Passes(l, s, c, c.To(c.index + 1), [s[c.index]])
    ensures c.index + 1 < |s| ==> !StartsAWord(l, s, c.index + 1)
  {
    InNoOtherWay(l, s, c.index);
    PlainRound(l, s, c);
  }

  /** Characters of a word that does not begin as one. */
  lemma {:induction false} LettersPass(l: Letters, s: string, c: Config, w: string)
    requires Ordinary(l) && Ready(c) && InCode(c.Top().kind) && At(s, c.index, w) && forall x <- w :: l.InWord(x)
    requires c.index < |s| ==> !StartsAWord(l, s, c.index)
    ensures Passes(l, s, c, c.To(c.index + |w|), w)
    decreases |w|
  {
    if w == "" {
      Stays(l, s, c);
    } else {
      var i, next := c.index, c.To(c.index + 1);
      assert s[i] == w[0] && w[0] in w && At(s, i + 1, w[1..]) by { AtFirst(s, i, w); }
      LetterRound(l, s, c);
      assert Passes(l, s, next, c.To(i + |w|), w[1..]) by { LettersPass(l, s, next, w[1..]); }
      assert Passes(l, s, c, c.To(i + |w|), [w[0]] + w[1..]) by {
        PassesOn(l, s, c, next, c.To(i + |w|), [w[0]], w[1..]);
      }
      assert [w[0]] + w[1..] == w;
    }
  }

  /** A word other than `case` and `esac`. */
  lemma NamePasses(l: Letters, s: string, c: Config, w: string)
    requires Ordinary(l) && Leaves(l, s, c, w) && c.Top().cases.Sound()
    requires PrintablePiece(l, Name(w), c.Top().cases, CharAt(s, c.index + |w|))
    ensures Passes(l, s, c, c.To(c.index + |w|).WithCase(Behind(c.Top().cases, Name(w))), w)
  {
    assert s[c.index] == w[0] && w[0] in w;
    if StartsAWord(l, s, c.index) {
      WordRound(l, s, c, w);
      assert c.Top().cases.Heard(w) == Behind(c.Top().cases, Name(w));
    } else {
      assert w != "in" by { assert InKeyword('i'); }
      LettersPass(l, s, c, w);
      SameCase(c, c.index + |w|);
    }
  }

  lemma SameCase(c: Config, i: nat)
    requires c.levels != []
    ensures c.To(i).WithCase(c.Top().cases) == c.To(i)
  {
  }

  lemma MarkPasses(l: Letters, s: string, c: Config, sign: char)
    requires Ordinary(l) && Leaves(l, s, c, [sign])
    requires PrintablePiece(l, Mark(sign), c.Top().cases, CharAt(s, c.index + 1))
    ensures Passes(l, s, c, c.To(c.index + 1), [sign])
  {
    var i := c.index;
    assert s[i] == [sign][0];
    SignIsPlain(l, s, i);
    PlainRound(l, s, c);
  }

  lemma SignIsPlain(l: Letters, s: string, i: nat)
    requires i < |s| && !l.InWord(s[i]) && !IsSpecial(s[i]) && (s[i] == '<' ==> CharAt(s, i + 1) != '<')
    requires s[i] == ';' ==> CharAt(s, i + 1) != ';' && CharAt(s, i + 1) != '&'
    ensures Plain(l, s, i)
  {
    var t := s[i..];
    assert t[0] == s[i] && (|t| > 1 ==> t[1] == s[i + 1]);
  }

  lemma VariablePasses(l: Letters, s: string, c: Config, w: string)
    requires Ordinary(l) && AtCode(s, c) && At(s, c.index, "$" + (w + "")) && IsWord(l, w)
    ensures Passes(l, s, c, c.To(c.index + |w| + 1), "$" + w)
  {
    var i := c.index;
    AtEnclosed(s, i, "$", w, "");
    AtFirst(s, i, "$");
    AtFirst(s, i + 1, w);
    assert Passes(l, s, c, c.To(i + 1), "$") by { DollarRound(l, s, c); }
    assert Passes(l, s, c.To(i + 1), c.To(i + 1 + |w|), w) by { LettersPass(l, s, c.To(i + 1), w); }
    PassesOn(l, s, c, c.To(i + 1), c.To(i + 1 + |w|), "$", w);
  }

  lemma HeldFirst(kind: Kind, t: string)
    requires t != "" && Held(kind, t)
    ensures Held(kind, [t[0]]) && Held(kind, t[1..]) && Blanks(t) == Blanks([t[0]]) + Blanks(t[1..])
  {
    assert t[0] in t;
  }

  lemma {:induction false} CharsPass(l: Letters, s: string, c: Config, t: string)
    requires Ready(c) && At(s, c.index, t) && Held(c.Top().kind, t)
    ensures Passes(l, s, c, c.To(c.index + |t|), Blanks(t))
    decreases |t|
  {
    if t == "" {
      Stays(l, s, c);
      assert Blanks(t) == "";
    } else {
      var i, next := c.index, c.To(c.index + 1);
      assert s[i] == t[0] && At(s, i + 1, t[1..]) by { AtFirst(s, i, t); }
      assert Held(c.Top().kind, [t[0]]) && Held(c.Top().kind, t[1..]) by { HeldFirst(c.Top().kind, t); }
      assert Passes(l, s, c, next, Blanks([t[0]])) by { CharRound(l, s, c, t[0]); }
      assert Passes(l, s, next, c.To(i + |t|), Blanks(t[1..])) by { CharsPass(l, s, next, t[1..]); }
      assert Passes(l, s, c, c.To(i + |t|), Blanks([t[0]]) + Blanks(t[1..])) by {
        PassesOn(l, s, c, next, c.To(i + |t|), Blanks([t[0]]), Blanks(t[1..]));
      }
      HeldFirst(c.Top().kind, t);
    }
  }

  lemma QuotedPasses(l: Letters, s: string, c: Config, t: string)
    requires AtCode(s, c) && At(s, c.index, "'" + (t + "'")) && Held(Single, t)
    ensures Passes(l, s, c, c.To(c.index + |t| + 2), " " + (Blanks(t) + " "))
  {
    var i, j := c.index + 1, c.index + 1 + |t|;
    AtEnclosed(s, c.index, "'", t, "'");
    AtFirst(s, c.index, "'");
    assert Passes(l, s, c, c.To(i).Push(Single), " ") by { QuoteRound(l, s, c); }
    assert Passes(l, s, c.To(i).Push(Single), c.To(i).Push(Single).To(j), Blanks(t)) by {
      CharsPass(l, s, c.To(i).Push(Single), t);
    }
    assert Passes(l, s, c.To(j).Push(Single), c.To(j + 1), " ") by { UnquoteRound(l, s, c, j, Single); }
    PassesThrough(l, s, c, Single, i, j, j + 1, " ", Blanks(t), " ");
  }

  // ---- pieces in one another -------------------------------------------------------------------------------------

  /** The scan stands in code at the beginning of `t`, where a word can begin. */
  predicate Stands(l: Letters, s: string, c: Config, t: string)
  {
    Ready(c) && InCode(c.Top().kind) && c.Top().cases.Sound() && At(s, c.index, t) && Break(l, s, c.index)
  }

  lemma {:induction false} PiecesPass(l: Letters, s: string, c: Config, ps: seq<Piece>)
    requires Ordinary(l) && Stands(l, s, c, Show(ps))
    requires Printable(l, ps, c.Top().cases, CharAt(s, c.index + |Show(ps)|))
    ensures Passes(l, s, c, c.To(c.index + |Show(ps)|).WithCase(After(c.Top().cases, ps)), Seen(ps))
    ensures Break(l, s, c.index + |Show(ps)|)
    decreases ps, 0
  {
    if ps == [] {
      Stays(l, s, c);
      SameCase(c, c.index);
    } else {
      var j, at := c.index + |ShowPiece(ps[0])|, Behind(c.Top().cases, ps[0]);
      StandsApart(l, s, c, ShowPiece(ps[0]), Show(ps[1..]));
      BreakBehind(l, s, c.index, ps[0], c.Top().cases);
      PiecePasses(l, s, c, ps[0]);
      StandsStill(l, s, c, j, at, Show(ps[1..]));
      PiecesPass(l, s, c.To(j).WithCase(at), ps[1..]);
      CasesJoined(l, s, c, j, c.index + |Show(ps)|, at, After(at, ps[1..]), SeenPiece(ps[0]), Seen(ps[1..]));
    }
  }

  lemma CasesJoined(l: Letters, s: string, c: Config, j: nat, k: nat, at: Case, end: Case, x: string, y: string)
    requires Ready(c) && Passes(l, s, c, c.To(j).WithCase(at), x)
    requires Passes(l, s, c.To(j).WithCase(at), c.To(j).WithCase(at).To(k).WithCase(end), y)
    ensures Passes(l, s, c, c.To(k).WithCase(end), x + y)
  {
    assert c.To(j).WithCase(at).To(k).WithCase(end) == c.To(k).WithCase(end);
    PassesOn(l, s, c, c.To(j).WithCase(at), c.To(k).WithCase(end), x, y);
  }

  lemma StandsStill(l: Letters, s: string, c: Config, j: nat, at: Case, t: string)
    requires Ready(c) && Stands(l, s, c.To(j), t) && at.Sound()
    ensures Stands(l, s, c.To(j).WithCase(at), t) && c.To(j).WithCase(at).Top() == c.Top().(cases := at)
  {
  }

  /** Where no `in` can change the state of the `case`. */
  lemma {:induction false} SteadyPass(l: Letters, s: string, c: Config, ps: seq<Piece>)
    requires Ordinary(l) && Stands(l, s, c, Show(ps)) && (c.Top().cases.depth == 0 || c.Top().cases.expecting)
    requires Printable(l, ps, c.Top().cases, CharAt(s, c.index + |Show(ps)|))
    ensures Passes(l, s, c, c.To(c.index + |Show(ps)|), Seen(ps)) && Break(l, s, c.index + |Show(ps)|)
    decreases ps, 1
  {
    PiecesPass(l, s, c, ps);
    AfterIsInside(c.Top().cases, ps);
    SameCase(c, c.index + |Show(ps)|);
  }

  /** Of two texts in a row the first stands here, and the second behind it if a word can begin there. */
  lemma StandsApart(l: Letters, s: string, c: Config, a: string, b: string)
    requires Stands(l, s, c, a + b)
    ensures Stands(l, s, c, a) && First(b, CharAt(s, c.index + |a + b|)) == CharAt(s, c.index + |a|)
    ensures c.index + |a| <= |s| && c.index + |a| + |b| == c.index + |a + b|
    ensures Break(l, s, c.index + |a|) ==> Stands(l, s, c.To(c.index + |a|), b)
    ensures c.To(c.index + |a|).Top() == c.Top()
  {
    AtBoth(s, c.index, a, b);
  }

  lemma ShowsSomething(l: Letters, p: Piece, at: Case, next: char)
    requires PrintablePiece(l, p, at, next)
    ensures ShowPiece(p) != ""
  {
  }

  lemma BreakBehind(l: Letters, s: string, i: nat, p: Piece, at: Case)
    requires Ordinary(l) && At(s, i, ShowPiece(p)) && PrintablePiece(l, p, at, CharAt(s, i + |ShowPiece(p)|))
    ensures Break(l, s, i + |ShowPiece(p)|)
  {
    var t := ShowPiece(p);
    ShowsSomething(l, p, at, CharAt(s, i + |t|));
    assert s[i + |t| - 1] == t[|t| - 1];
    NotInWord(l, '\'');
    NotInWord(l, '"');
    NotInWord(l, ')');
  }

  lemma {:induction false} PiecePasses(l: Letters, s: string, c: Config, p: Piece)
    requires Ordinary(l) && Stands(l, s, c, ShowPiece(p))
    requires PrintablePiece(l, p, c.Top().cases, CharAt(s, c.index + |ShowPiece(p)|))
    ensures Passes(l, s, c, c.To(c.index + |ShowPiece(p)|).WithCase(Behind(c.Top().cases, p)), SeenPiece(p))
    decreases p, 1
  {
    ShowsSomething(l, p, c.Top().cases, CharAt(s, c.index + |ShowPiece(p)|));
    SameCase(c, c.index + |ShowPiece(p)|);
    match p
    case Name(word) => NamePasses(l, s, c, word);
    case Mark(sign) => MarkPasses(l, s, c, sign);
    case Variable(word) =>
      VariablePasses(l, s, c, word);
      assert word + "" == word;
    case Quoted(text) => QuotedPasses(l, s, c, text);
    case Doubled(parts) => DoubledPasses(l, s, c, parts);
    case Group(body) => GroupPasses(l, s, c, body);
    case Substitution(body) => SubstitutionPasses(l, s, c, body);
    case Cases(subject, arms, gap) => CasesPass(l, s, c, p, subject, arms, gap);
  }

  /** Code in parentheses, up to the one that closes it: the level it opened is the level that is left there. */
  lemma {:induction false} BodyPasses(l: Letters, s: string, c: Config, i: nat, body: seq<Piece>)
    requires Ordinary(l) && Ready(c) && 0 < i <= |s| && s[i - 1] == '(' && At(s, i, Show(body))
    requires CharAt(s, i + |Show(body)|) == ')' && Printable(l, body, FRESH, ')')
    ensures Passes(l, s, c.To(i).Push(Code), c.To(i).Push(Code).To(i + |Show(body)|), Seen(body))
    decreases body, 2
  {
    NotInWord(l, '(');
    SteadyPass(l, s, c.To(i).Push(Code), body);
  }

  lemma {:induction false} GroupPasses(l: Letters, s: string, c: Config, body: seq<Piece>)
    requires Ordinary(l) && AtCode(s, c) && !c.Top().cases.expecting && At(s, c.index, "(" + (Show(body) + ")"))
    requires Printable(l, body, FRESH, ')')
    ensures Passes(l, s, c, c.To(c.index + |Show(body)| + 2), "(" + (Seen(body) + ")"))
    decreases body, 3
  {
    var i, j := c.index + 1, c.index + 1 + |Show(body)|;
    assert s[c.index] == '(' && At(s, i, Show(body)) && CharAt(s, j) == ')' && j < |s| by {
      AtEnclosed(s, c.index, "(", Show(body), ")");
      AtFirst(s, c.index, "(");
    }
    assert Passes(l, s, c, c.To(i).Push(Code), "(") by { OpenRound(l, s, c); }
    BodyPasses(l, s, c, i, body);
    assert Passes(l, s, c.To(j).Push(Code), c.To(j + 1), ")") by { CloseRound(l, s, c, j); }
    PassesThrough(l, s, c, Code, i, j, j + 1, "(", Seen(body), ")");
  }

  /** A substitution, in code or in double quotes. */
  lemma {:induction false} SubstitutionPasses(l: Letters, s: string, c: Config, body: seq<Piece>)
    requires Ordinary(l) && Ready(c) && c.Top().kind != Single && At(s, c.index, "$(" + (Show(body) + ")"))
    requires Printable(l, body, FRESH, ')') && First(Show(body), ')') != '('
    ensures Passes(l, s, c, c.To(c.index + |Show(body)| + 3), "$(" + (Seen(body) + ")"))
    decreases body, 3
  {
    var i, j := c.index + 2, c.index + 2 + |Show(body)|;
    SubstitutionApart(s, c.index, Show(body));
    assert Passes(l, s, c, c.To(i).Push(Code), "$(") by { SubstitutionRound(l, s, c); }
    BodyPasses(l, s, c, i, body);
    assert Passes(l, s, c.To(j).Push(Code), c.To(j + 1), ")") by { CloseRound(l, s, c, j); }
    PassesThrough(l, s, c, Code, i, j, j + 1, "$(", Seen(body), ")");
  }

  lemma SubstitutionApart(s: string, i: nat, t: string)
    requires At(s, i, "$(" + (t + ")"))
    ensures At(s, i, "$(") && At(s, i + 2, t) && i + 2 + |t| < |s| && s[i + 2 + |t|] == ')' && s[i + 1] == '('
    ensures CharAt(s, i + 2) == First(t, ')')
  {
    AtEnclosed(s, i, "$(", t, ")");
    assert s[i + 1] == "$("[1];
  }

  lemma {:induction false} DoubledPasses(l: Letters, s: string, c: Config, parts: seq<Part>)
    requires Ordinary(l) && AtCode(s, c) && At(s, c.index, "\"" + (ShowParts(parts) + "\"")) && PrintableParts(l, parts)
    ensures Passes(l, s, c, c.To(c.index + |ShowParts(parts)| + 2), " " + (SeenParts(parts) + " "))
    decreases parts, 1
  {
    var i, j := c.index + 1, c.index + 1 + |ShowParts(parts)|;
    assert s[c.index] == '"' && At(s, i, ShowParts(parts)) && CharAt(s, j) == '"' && j < |s| by {
      AtEnclosed(s, c.index, "\"", ShowParts(parts), "\"");
      AtFirst(s, c.index, "\"");
    }
    assert Passes(l, s, c, c.To(i).Push(Double), " ") by { QuoteRound(l, s, c); }
    assert Passes(l, s, c.To(i).Push(Double), c.To(i).Push(Double).To(j), SeenParts(parts)) by {
      PartsPass(l, s, c.To(i).Push(Double), parts);
    }
    assert Passes(l, s, c.To(j).Push(Double), c.To(j + 1), " ") by { UnquoteRound(l, s, c, j, Double); }
    PassesThrough(l, s, c, Double, i, j, j + 1, " ", SeenParts(parts), " ");
  }

  lemma {:induction false} PartsPass(l: Letters, s: string, c: Config, parts: seq<Part>)
    requires Ordinary(l) && Ready(c) && c.Top().kind == Double && At(s, c.index, ShowParts(parts))
    requires PrintableParts(l, parts)
    ensures Passes(l, s, c, c.To(c.index + |ShowParts(parts)|), SeenParts(parts))
    decreases parts, 0
  {
    if parts == [] {
      Stays(l, s, c);
    } else {
      var j, k := c.index + |ShowPart(parts[0])|, c.index + |ShowParts(parts)|;
      AtBoth(s, c.index, ShowPart(parts[0]), ShowParts(parts[1..]));
      PartPasses(l, s, c, parts[0]);
      PartsPass(l, s, c.To(j), parts[1..]);
      Joined(l, s, c, j, k, SeenPart(parts[0]), SeenParts(parts[1..]));
    }
  }

  lemma {:induction false} PartPasses(l: Letters, s: string, c: Config, p: Part)
    requires Ordinary(l) && Ready(c) && c.Top().kind == Double && At(s, c.index, ShowPart(p)) && PrintablePart(l, p)
    ensures Passes(l, s, c, c.To(c.index + |ShowPart(p)|), SeenPart(p))
    decreases p, 1
  {
    match p
    case Chars(text) => CharsPass(l, s, c, text);
    case Inner(body) => SubstitutionPasses(l, s, c, body);
  }

  // ---- `case` ----------------------------------------------------------------------------------------------------

  lemma {:induction false} GapPasses(l: Letters, s: string, c: Config, gap: string)
    requires Ordinary(l) && Stands(l, s, c, gap) && IsBlank(gap)
    ensures Passes(l, s, c, c.To(c.index + |gap|), gap) && Break(l, s, c.index + |gap|)
    decreases |gap|
  {
    if gap == "" {
      Stays(l, s, c);
    } else {
      var i, next := c.index, c.To(c.index + 1);
      assert s[i] == gap[0] && gap[0] in gap && At(s, i + 1, gap[1..]) by { AtFirst(s, i, gap); }
      NotInWord(l, gap[0]);
      assert Passes(l, s, c, next, [gap[0]]) by {
        SignIsPlain(l, s, i);
        PlainRound(l, s, c);
      }
      assert Passes(l, s, next, c.To(i + |gap|), gap[1..]) && Break(l, s, i + |gap|) by {
        GapPasses(l, s, next, gap[1..]);
      }
      assert Passes(l, s, c, c.To(i + |gap|), [gap[0]] + gap[1..]) by {
        PassesOn(l, s, c, next, c.To(i + |gap|), [gap[0]], gap[1..]);
      }
      assert [gap[0]] + gap[1..] == gap;
    }
  }

  lemma CaseBack(c: Config, at: Case, i: nat)
    requires c.levels != []
    ensures c.WithCase(at).To(i).WithCase(c.Top().cases) == c.To(i)
    ensures c.WithCase(at).Top() == c.Top().(cases := at)
  {
  }

  /** A keyword, and what it makes of the state. */
  lemma KeywordPasses(l: Letters, s: string, c: Config, w: string)
    requires Ordinary(l) && Stands(l, s, c, w) && !l.InWord(CharAt(s, c.index + |w|))
    requires w == "case" || w == "in" || w == "esac"
    ensures Passes(l, s, c, c.To(c.index + |w|).WithCase(c.Top().cases.Heard(w)), w)
  {
    forall x | x in w ensures x in l.alpha { assert InKeyword(x); }
    assert s[c.index] == w[0] by { AtFirst(s, c.index, w); }
    WordRound(l, s, c, w);
  }

  /** The state a pattern is expected in, inside a `case`. */
  predicate Expects(c: Config, inside: Case)
  {
    Ready(c) && inside.depth > 0 && !inside.expecting && c.Top().cases == inside.(expecting := true)
  }

  /** The arms of a `case`. A pattern is expected before each, and behind the last. */
  lemma {:induction false} ArmsPass(l: Letters, s: string, c: Config, arms: seq<Arm>, inside: Case)
    requires Ordinary(l) && Stands(l, s, c, ShowArms(arms)) && Expects(c, inside)
    requires PrintableArms(l, arms, inside, CharAt(s, c.index + |ShowArms(arms)|))
    ensures Passes(l, s, c, c.To(c.index + |ShowArms(arms)|), SeenArms(arms))
    ensures Break(l, s, c.index + |ShowArms(arms)|)
    decreases arms, 0
  {
    if arms == [] {
      Stays(l, s, c);
    } else {
      var j, k := c.index + |ShowArm(arms[0])|, c.index + |ShowArms(arms)|;
      StandsApart(l, s, c, ShowArm(arms[0]), ShowArms(arms[1..]));
      ArmPasses(l, s, c, arms[0], inside);
      ArmsPass(l, s, c.To(j), arms[1..], inside);
      Joined(l, s, c, j, k, SeenArm(arms[0]), SeenArms(arms[1..]));
    }
  }

  /** One arm, from what leads up to it on. */
  lemma {:induction false} ArmPasses(l: Letters, s: string, c: Config, a: Arm, inside: Case)
    requires Ordinary(l) && Stands(l, s, c, ShowArm(a)) && Expects(c, inside)
    requires PrintableArm(l, a, inside, CharAt(s, c.index + |ShowArm(a)|))
    ensures Passes(l, s, c, c.To(c.index + |ShowArm(a)|), SeenArm(a)) && Break(l, s, c.index + |ShowArm(a)|)
    decreases a, 3
  {
    var shown := Lead(a) + (Show(a.pattern) + ShowBehind(a));
    var i, k := c.index + |a.gap|, c.index + |ShowArm(a)|;
    StandsApart(l, s, c, a.gap, shown);
    GapPasses(l, s, c, a.gap);
    LeadPasses(l, s, c.To(i), a, inside);
    Joined(l, s, c, i, k, a.gap, Lead(a) + (Seen(a.pattern) + SeenBehind(a)));
  }

  lemma {:induction false} LeadPasses(l: Letters, s: string, c: Config, a: Arm, inside: Case)
    requires Ordinary(l) && Stands(l, s, c, Lead(a) + (Show(a.pattern) + ShowBehind(a))) && Expects(c, inside)
    requires PrintableArm(l, a, inside, CharAt(s, c.index + |Lead(a) + (Show(a.pattern) + ShowBehind(a))|))
    ensures var k := c.index + |Lead(a) + (Show(a.pattern) + ShowBehind(a))|;
            Passes(l, s, c, c.To(k), Lead(a) + (Seen(a.pattern) + SeenBehind(a))) && Break(l, s, k)
    decreases a, 2
  {
    var shown := Show(a.pattern) + ShowBehind(a);
    var i := c.index + |Lead(a)|;
    StandsApart(l, s, c, Lead(a), shown);
    OpeningPasses(l, s, c, a);
    PatternPasses(l, s, c.To(i), a, inside);
    Joined(l, s, c, i, i + |shown|, Lead(a), Seen(a.pattern) + SeenBehind(a));
  }

  lemma OpeningPasses(l: Letters, s: string, c: Config, a: Arm)
    requires Ordinary(l) && Ready(c) && InCode(c.Top().kind) && At(s, c.index, Lead(a)) && Break(l, s, c.index)
    requires c.Top().cases.OpensAPattern()
    ensures Passes(l, s, c, c.To(c.index + |Lead(a)|), Lead(a)) && Break(l, s, c.index + |Lead(a)|)
  {
    if a.bracketed {
      AtFirst(s, c.index, "(");
      PatternOpenRound(l, s, c);
      NotInWord(l, '(');
    } else {
      Stays(l, s, c);
    }
  }

  /** The pattern, and what stands behind it. */
  lemma {:induction false} PatternPasses(l: Letters, s: string, c: Config, a: Arm, inside: Case)
    requires Ordinary(l) && Stands(l, s, c, Show(a.pattern) + ShowBehind(a)) && Expects(c, inside)
    requires PrintableArm(l, a, inside, CharAt(s, c.index + |Show(a.pattern) + ShowBehind(a)|))
    ensures var k := c.index + |Show(a.pattern) + ShowBehind(a)|;
            Passes(l, s, c, c.To(k), Seen(a.pattern) + SeenBehind(a)) && Break(l, s, k)
    decreases a, 1
  {
    var i := c.index + |Show(a.pattern)|;
    StandsApart(l, s, c, Show(a.pattern), ShowBehind(a));
    SteadyPass(l, s, c, a.pattern);
    BehindPattern(l, s, c.To(i), a, inside);
    Joined(l, s, c, i, i + |ShowBehind(a)|, Seen(a.pattern), SeenBehind(a));
  }

  /** The parenthesis that ends the pattern leaves every level as it is, and expects no other. */
  lemma {:induction false} BehindPattern(l: Letters, s: string, c: Config, a: Arm, inside: Case)
    requires Ordinary(l) && Expects(c, inside) && InCode(c.Top().kind) && At(s, c.index, ShowBehind(a))
    requires PrintableArm(l, a, inside, CharAt(s, c.index + |ShowBehind(a)|))
    ensures Passes(l, s, c, c.To(c.index + |ShowBehind(a)|), SeenBehind(a))
    ensures Break(l, s, c.index + |ShowBehind(a)|)
    decreases a, 0
  {
    var i, shown := c.index + 1, Show(a.body) + a.end;
    var body, end := c.To(i).WithCase(inside), c.To(i + |shown|);
    assert s[c.index] == ')' && At(s, i, shown) by {
      AtBoth(s, c.index, ")", shown);
      AtFirst(s, c.index, ")");
    }
    assert Ready(body) && body.Top() == c.Top().(cases := inside) by { CaseBack(c.To(i), inside, i); }
    assert Break(l, s, i) by { NotInWord(l, ')'); }
    assert Passes(l, s, c, body, ")") by { PatternCloseRound(l, s, c); }
    CommandsPass(l, s, c, body, a.body, a.end, inside);
    PassesOn(l, s, c, body, end, ")", Seen(a.body) + a.end);
  }

  /** The commands of an arm and its terminator, behind which a pattern is expected again. */
  lemma {:induction false} CommandsPass(l: Letters, s: string, c: Config, body: Config, ps: seq<Piece>, end: string,
                                        inside: Case)
    requires Ordinary(l) && Expects(c, inside) && InCode(c.Top().kind) && body == c.To(body.index).WithCase(inside)
    requires Stands(l, s, body, Show(ps) + end) && Printable(l, ps, inside, ';') && IsEnd(end)
    requires end == ";;" ==> CharAt(s, body.index + |Show(ps) + end|) != '&'
    ensures var k := body.index + |Show(ps) + end|;
            Passes(l, s, body, c.To(k), Seen(ps) + end) && Break(l, s, k)
    decreases ps, 1
  {
    var j := body.index + |Show(ps)|;
    var k := j + |end|;
    assert At(s, body.index, Show(ps)) && At(s, j, end) && CharAt(s, j) == ';' by {
      AtBoth(s, body.index, Show(ps), end);
    }
    var at := After(inside, ps);
    var here := body.To(j).WithCase(at);
    assert body.Top().cases == inside by { CaseBack(c.To(body.index), inside, j); }
    assert Passes(l, s, body, here, Seen(ps)) by { PiecesPass(l, s, body, ps); }
    assert here == c.To(j).WithCase(at) by { CaseOver(c, body.index, j, inside, at); }
    AfterIsInside(inside, ps);
    assert Passes(l, s, here, c.To(k), end) && Break(l, s, k) by { EndPasses(l, s, c, here, j, end, at); }
    PassesOn(l, s, body, here, c.To(k), Seen(ps), end);
  }

  lemma CaseOver(c: Config, i: nat, j: nat, before: Case, now: Case)
    requires c.levels != []
    ensures c.To(i).WithCase(before).To(j).WithCase(now) == c.To(j).WithCase(now)
    ensures c.To(j).WithCase(now).Top() == c.Top().(cases := now)
  {
  }

  lemma EndPasses(l: Letters, s: string, c: Config, here: Config, j: nat, end: string, at: Case)
    requires Ordinary(l) && Ready(c) && InCode(c.Top().kind) && At(s, j, end) && at.depth > 0
    requires c.Top().cases == at.(expecting := true) && here == c.To(j).WithCase(at)
    requires IsEnd(end) && (end == ";;" ==> CharAt(s, j + |end|) != '&')
    ensures Passes(l, s, here, c.To(j + |end|), end) && Break(l, s, j + |end|)
  {
    var k := j + |end|;
    assert here.Top() == c.Top().(cases := at) && here.To(k).WithCase(c.Top().cases) == c.To(k) by {
      CaseBack(c.To(j), at, k);
    }
    assert Passes(l, s, here, c.To(k), end) by { TerminatorRound(l, s, here, end); }
    assert Break(l, s, k) by {
      assert s[k - 1] == end[|end| - 1];
      NotInWord(l, ';');
      NotInWord(l, '&');
    }
  }

  /** A whole `case`: the state of the level is what it was before. */
  lemma {:induction false} CasesPass(l: Letters, s: string, c: Config, p: Piece, subject: seq<Piece>, arms: seq<Arm>,
                                     gap: string)
    requires Ordinary(l) && p == Cases(subject, arms, gap)
    requires Stands(l, s, c, "case" + (Show(subject) + ShowBody(arms, gap))) && !c.Top().cases.expecting
    requires var inside := Case(c.Top().cases.depth + 1, false);
             PrintableSubject(l, subject, inside) && PrintableBody(l, arms, gap, inside)
    requires !l.InWord(CharAt(s, c.index + 4 + |Show(subject) + ShowBody(arms, gap)|))
    ensures Passes(l, s, c, c.To(c.index + 4 + |Show(subject) + ShowBody(arms, gap)|),
                   "case" + (Seen(subject) + SeenBody(arms, gap)))
    decreases p, 0, 2
  {
    var i, shown := c.index + 4, Show(subject) + ShowBody(arms, gap);
    var inside := Case(c.Top().cases.depth + 1, false);
    var within, end := c.To(i).WithCase(inside), c.To(i + |shown|);
    assert At(s, c.index, "case") && At(s, i, shown) && CharAt(s, i) == First(Show(subject), 'i') by {
      AtBoth(s, c.index, "case", shown);
      AtBoth(s, i, Show(subject), ShowBody(arms, gap));
    }
    assert Passes(l, s, c, within, "case") by { KeywordPasses(l, s, c, "case"); }
    assert Ready(within) && within.Top() == c.Top().(cases := inside) by { CaseBack(c.To(i), inside, i); }
    SubjectPasses(l, s, c, within, subject, arms, gap, p);
    PassesOn(l, s, c, within, end, "case", Seen(subject) + SeenBody(arms, gap));
  }

  lemma {:induction false} SubjectPasses(l: Letters, s: string, c: Config, within: Config, subject: seq<Piece>,
                                         arms: seq<Arm>, gap: string, p: Piece)
    requires Ordinary(l) && p == Cases(subject, arms, gap) && Ready(c) && InCode(c.Top().kind) &&
             !c.Top().cases.expecting
    requires var inside := Case(c.Top().cases.depth + 1, false);
             within == c.To(within.index).WithCase(inside) && Printable(l, subject, inside, 'i') &&
             PrintableBody(l, arms, gap, inside)
    requires Stands(l, s, within, Show(subject) + ShowBody(arms, gap))
    requires !l.InWord(CharAt(s, within.index + |Show(subject) + ShowBody(arms, gap)|))
    ensures Passes(l, s, within, c.To(within.index + |Show(subject) + ShowBody(arms, gap)|),
                   Seen(subject) + SeenBody(arms, gap))
    decreases p, 0, 1
  {
    var j := within.index + |Show(subject)|;
    var end := c.To(j + |ShowBody(arms, gap)|);
    assert At(s, within.index, Show(subject)) && At(s, j, ShowBody(arms, gap)) && CharAt(s, j) == 'i' by {
      AtBoth(s, within.index, Show(subject), ShowBody(arms, gap));
    }
    var inside := Case(c.Top().cases.depth + 1, false);
    var at := After(inside, subject);
    var here := c.To(j).WithCase(at);
    assert within.Top().cases == inside by { CaseBack(c.To(within.index), inside, j); }
    assert Passes(l, s, within, here, Seen(subject)) && Break(l, s, j) by {
      PiecesPass(l, s, within, subject);
      CaseOver(c, within.index, j, inside, at);
    }
    AfterIsInside(inside, subject);
    BodyPassesOn(l, s, c, arms, gap, at, j);
    PassesOn(l, s, within, here, end, Seen(subject), SeenBody(arms, gap));
  }

  /** `in`, the arms, and `esac`. */
  lemma {:induction false} BodyPassesOn(l: Letters, s: string, c: Config, arms: seq<Arm>, gap: string, at: Case, j: nat)
    requires Ordinary(l) && Ready(c) && InCode(c.Top().kind) && !c.Top().cases.expecting
    requires At(s, j, ShowBody(arms, gap)) && Break(l, s, j) && !l.InWord(CharAt(s, j + |ShowBody(arms, gap)|))
    requires PrintableBody(l, arms, gap, Case(c.Top().cases.depth + 1, false))
    requires at.depth == c.Top().cases.depth + 1
    ensures Passes(l, s, c.To(j).WithCase(at), c.To(j + |ShowBody(arms, gap)|), SeenBody(arms, gap))
    decreases arms, 2
  {
    var inside, m, shown := Case(c.Top().cases.depth + 1, false), j + 2, ShowArms(arms) + (gap + "esac");
    assert At(s, j, "in") && At(s, m, shown) && CharAt(s, m) == First(ShowArms(arms), First(gap, 'e')) by {
      AtBoth(s, j, "in", shown);
      AtBoth(s, m, ShowArms(arms), gap + "esac");
    }
    var here, end := c.To(j).WithCase(at), c.To(m + |shown|);
    var within := c.To(m).WithCase(inside.(expecting := true));
    assert Passes(l, s, here, within, "in") by { InPasses(l, s, c, at, j); }
    assert Expects(within, inside) && InCode(within.Top().kind) by { CaseBack(c.To(m), inside.(expecting := true), m); }
    ArmsPassOn(l, s, c, within, arms, gap, inside);
    PassesOn(l, s, here, within, end, "in", SeenArms(arms) + (gap + "esac"));
  }

  lemma InPasses(l: Letters, s: string, c: Config, at: Case, j: nat)
    requires Ordinary(l) && Ready(c) && InCode(c.Top().kind) && at.depth > 0
    requires At(s, j, "in") && Break(l, s, j) && !l.InWord(CharAt(s, j + 2))
    ensures Passes(l, s, c.To(j).WithCase(at), c.To(j + 2).WithCase(at.(expecting := true)), "in")
  {
    var here := c.To(j).WithCase(at);
    CaseBack(c.To(j), at, j);
    assert Passes(l, s, here, here.To(j + 2).WithCase(at.(expecting := true)), "in") by {
      KeywordPasses(l, s, here, "in");
    }
    CaseOver(c, j, j + 2, at, at.(expecting := true));
  }

  lemma {:induction false} ArmsPassOn(l: Letters, s: string, c: Config, within: Config, arms: seq<Arm>, gap: string,
                                      inside: Case)
    requires Ordinary(l) && Ready(c) && InCode(c.Top().kind) && !c.Top().cases.expecting && Expects(within, inside)
    requires inside.depth == c.Top().cases.depth + 1 && within == c.To(within.index).WithCase(Case(inside.depth, true))
    requires InCode(within.Top().kind) && At(s, within.index, ShowArms(arms) + (gap + "esac"))
    requires !l.InWord(CharAt(s, within.index)) && PrintableArms(l, arms, inside, First(gap, 'e')) && IsBlank(gap)
    requires !l.InWord(CharAt(s, within.index + |ShowArms(arms) + (gap + "esac")|))
    ensures Passes(l, s, within, c.To(within.index + |ShowArms(arms) + (gap + "esac")|),
                   SeenArms(arms) + (gap + "esac"))
    decreases arms, 1
  {
    var n := within.index + |ShowArms(arms)|;
    var end := c.To(n + |gap + "esac"|);
    assert At(s, within.index, ShowArms(arms)) && At(s, n, gap + "esac") && CharAt(s, n) == First(gap, 'e') by {
      AtBoth(s, within.index, ShowArms(arms), gap + "esac");
      AtBoth(s, n, gap, "esac");
    }
    assert Passes(l, s, within, within.To(n), SeenArms(arms)) && Break(l, s, n) by {
      ArmsPass(l, s, within, arms, inside);
    }
    assert Passes(l, s, within.To(n), end, gap + "esac") by { ClosingPasses(l, s, c, within, gap, n); }
    PassesOn(l, s, within, within.To(n), end, SeenArms(arms), gap + "esac");
  }

  lemma ClosingPasses(l: Letters, s: string, c: Config, arms: Config, gap: string, n: nat)
    requires Ordinary(l) && Ready(c) && InCode(c.Top().kind) && !c.Top().cases.expecting
    requires arms == c.To(arms.index).WithCase(Case(c.Top().cases.depth + 1, true))
    requires At(s, n, gap + "esac") && Break(l, s, n) && IsBlank(gap) && !l.InWord(CharAt(s, n + |gap + "esac"|))
    ensures Passes(l, s, arms.To(n), c.To(n + |gap + "esac"|), gap + "esac")
  {
    var i := n + |gap|;
    assert At(s, n, gap) && At(s, i, "esac") by { AtBoth(s, n, gap, "esac"); }
    CaseBack(c.To(arms.index), Case(c.Top().cases.depth + 1, true), i + 4);
    assert Passes(l, s, arms.To(n), arms.To(i), gap) && Break(l, s, i) by { GapPasses(l, s, arms.To(n), gap); }
    assert Passes(l, s, arms.To(i), c.To(i + 4), "esac") by {
      KeywordPasses(l, s, arms.To(i), "esac");
      assert arms.To(i).To(i + 4).WithCase(c.Top().cases) == c.To(i + 4);
    }
    PassesOn(l, s, arms.To(n), arms.To(i), c.To(i + 4), gap, "esac");
  }

  // ---- whole scripts -----------------------------------------------------------------------------------------------

  /** The masked text of a script is its code with only the quoted text blanked, and the levels end as they began. */
  lemma ScriptMasked(l: Letters, ps: seq<Piece>) returns (n: nat)
    requires Ordinary(l) && Printable(l, ps, FRESH, ' ')
    ensures MaskText(l, Show(ps)) == Seen(ps)
    ensures Run(l, Show(ps), START, n).index == |Show(ps)| && Run(l, Show(ps), START, n).levels == START.levels
  {
    var s, end := Show(ps), START.To(|Show(ps)|);
    assert At(s, 0, s);
    NotInWord(l, ' ');
    SteadyPass(l, s, START, ps);
    n := EndsAt(l, s, START, end, Seen(ps));
    assert MaskFrom(l, s, end) == "";
    assert Seen(ps) + "" == Seen(ps);
  }

  /** From `a` on the masked text reads `seen`, and then what it reads from `b` on. */
  predicate Reads(l: Letters, s: string, a: Config, b: Config, seen: string)
  {
    a.index <= |s| && b.index <= |s| && MaskFrom(l, s, a) == seen + MaskFrom(l, s, b)
  }

  lemma EndsAt(l: Letters, s: string, a: Config, b: Config, seen: string) returns (n: nat)
    requires b.pending == [] && Passes(l, s, a, b, seen)
    ensures Run(l, s, a, n) == b.(due := Run(l, s, a, n).due) && Reads(l, s, a, b, seen)
  {
    var k: nat, due: bool :| Lands(l, s, a, b.(due := due), seen, k);
    n := k;
    assert Rounds(l, s, Place(a, ""), n) == Place(b.(due := due), "" + seen);
    PlaceIsRun(l, s, a, "", n);
    DueIsIdle(l, s, b, due);
    assert "" + MaskFrom(l, s, a) == MaskFrom(l, s, a) && "" + seen == seen;
  }

  /** A substitution that holds any code at all, `case` statements included, ends at the parenthesis printed to close
      it: behind it the levels are what they were. */
  lemma SubstitutionMasked(l: Letters, s: string, c: Config, body: seq<Piece>) returns (n: nat)
    requires Ordinary(l) && Ready(c) && c.Top().kind != Single && At(s, c.index, "$(" + (Show(body) + ")"))
    requires Printable(l, body, FRESH, ')') && First(Show(body), ')') != '('
    ensures Run(l, s, c, n).index == c.index + |Show(body)| + 3 && Run(l, s, c, n).levels == c.levels
    ensures Reads(l, s, c, c.To(c.index + |Show(body)| + 3), "$(" + (Seen(body) + ")"))
  {
    var end, seen := c.To(c.index + |Show(body)| + 3), "$(" + (Seen(body) + ")");
    assert Passes(l, s, c, end, seen) by { SubstitutionPasses(l, s, c, body); }
    n := EndsAt(l, s, c, end, seen);
  }

  /** And where that parenthesis stands the run is still on the level the substitution opened. */
  lemma SubstitutionStays(l: Letters, s: string, c: Config, body: seq<Piece>) returns (m: nat)
    requires Ordinary(l) && Ready(c) && At(s, c.index, "$(" + (Show(body) + ")")) && Printable(l, body, FRESH, ')')
    ensures var j := c.index + 2 + |Show(body)|;
            j < |s| && s[j] == ')' && Run(l, s, c.To(c.index + 2).Push(Code), m).index == j &&
            Run(l, s, c.To(c.index + 2).Push(Code), m).levels == c.levels + [Level(Code, FRESH)]
  {
    var here := c.To(c.index + 2).Push(Code);
    SubstitutionApart(s, c.index, Show(body));
    BodyPasses(l, s, c, c.index + 2, body);
    m := EndsAt(l, s, here, here.To(c.index + 2 + |Show(body)|), Seen(body));
  }

  // ---- the `in` of a `for` inside an arm --------------------------------------------------------------------------

  /** The `in` of a `for` inside an arm counts as a `case`'s. The two parentheses behind it are taken for one pattern's,
      and the second that closes ends the substitution the arm stands in. */
  lemma ForEndsSubstitution(l: Letters, s: string, c: Config, inside: Case, list: seq<Piece>, body: seq<Piece>)
    returns (n: nat)
    requires Ordinary(l) && Ready(c) && inside.depth > 0 && !inside.expecting
    requires Stands(l, s, c.Push(Code).WithCase(inside), "in" + (Show(list) + ("((" + (Show(body) + "))"))))
    requires Printable(l, list, inside.(expecting := true), '(') && !l.InWord(First(Show(list), '('))
    requires Printable(l, body, inside.(expecting := true), ')')
    ensures var now := Run(l, s, c.Push(Code).WithCase(inside), n);
            now.index == c.index + |Show(list)| + |Show(body)| + 6 && now.levels == c.levels
  {
    var arm, at := c.Push(Code).WithCase(inside), c.Push(Code).WithCase(inside.(expecting := true));
    var j := c.index + 2 + |Show(list)|;
    var k := j + 2 + |Show(body)|;
    ListApart(s, c.index, Show(list), Show(body));
    ListPasses(l, s, c, inside, list);
    PairPasses(l, s, c, inside, j, body);
    PassesOn(l, s, arm, at.To(j), c.To(k + 2), "in" + Seen(list), "((" + (Seen(body) + "))"));
    n := EndsAt(l, s, arm, c.To(k + 2), "in" + Seen(list) + ("((" + (Seen(body) + "))")));
  }

  lemma ListPasses(l: Letters, s: string, c: Config, inside: Case, list: seq<Piece>)
    requires Ordinary(l) && Ready(c) && inside.depth > 0 && !inside.expecting
    requires Stands(l, s, c.Push(Code).WithCase(inside), "in") && At(s, c.index + 2, Show(list))
    requires !l.InWord(CharAt(s, c.index + 2)) && CharAt(s, c.index + 2 + |Show(list)|) == '('
    requires Printable(l, list, inside.(expecting := true), '(')
    ensures var at := c.Push(Code).WithCase(inside.(expecting := true));
            Passes(l, s, c.Push(Code).WithCase(inside), at.To(c.index + 2 + |Show(list)|), "in" + Seen(list))
  {
    var arm, at := c.Push(Code).WithCase(inside), c.Push(Code).WithCase(inside.(expecting := true));
    var i, j := c.index + 2, c.index + 2 + |Show(list)|;
    ForIn(l, s, c, inside);
    SteadyPass(l, s, at.To(i), list);
    assert at.To(i).To(j) == at.To(j);
    PassesOn(l, s, arm, at.To(i), at.To(j), "in", Seen(list));
  }

  lemma ForIn(l: Letters, s: string, c: Config, inside: Case)
    requires Ordinary(l) && Ready(c) && inside.depth > 0
    requires Stands(l, s, c.Push(Code).WithCase(inside), "in") && !l.InWord(CharAt(s, c.index + 2))
    ensures var next := c.Push(Code).WithCase(inside.(expecting := true)).To(c.index + 2);
            Passes(l, s, c.Push(Code).WithCase(inside), next, "in") && Ready(next) &&
            next.Top() == Level(Code, inside.(expecting := true))
  {
    var arm, i := c.Push(Code).WithCase(inside), c.index + 2;
    KeywordPasses(l, s, arm, "in");
    assert arm.To(i).WithCase(inside.(expecting := true)) ==
           c.Push(Code).WithCase(inside.(expecting := true)).To(i);
  }

  lemma PairPasses(l: Letters, s: string, c: Config, inside: Case, j: nat, body: seq<Piece>)
    requires Ordinary(l) && Ready(c) && inside.depth > 0 && !inside.expecting
    requires PairAt(s, j, Show(body)) && Printable(l, body, inside.(expecting := true), ')')
    ensures var at := c.Push(Code).WithCase(inside.(expecting := true));
            Passes(l, s, at.To(j), c.To(j + 4 + |Show(body)|), "((" + (Seen(body) + "))"))
  {
    var at, k := c.Push(Code).WithCase(inside.(expecting := true)), j + 2 + |Show(body)|;
    NotInWord(l, '(');
    assert Passes(l, s, at.To(j), at.To(j + 2), "((") by { BothOpen(l, s, at, j); }
    assert Passes(l, s, at.To(j + 2), at.To(k), Seen(body)) by { SteadyPass(l, s, at.To(j + 2), body); }
    assert Passes(l, s, at.To(k), c.To(k + 2), "))") by { BothClose(l, s, c, inside, k); }
    AroundPasses(l, s, at, j, k, c.To(k + 2), Seen(body));
  }

  lemma AroundPasses(l: Letters, s: string, at: Config, j: nat, k: nat, end: Config, seen: string)
    requires Ready(at) && Passes(l, s, at.To(j), at.To(j + 2), "((") && Passes(l, s, at.To(j + 2), at.To(k), seen)
    requires Passes(l, s, at.To(k), end, "))")
    ensures Passes(l, s, at.To(j), end, "((" + (seen + "))"))
  {
    PassesOn(l, s, at.To(j + 2), at.To(k), end, seen, "))");
    PassesOn(l, s, at.To(j), at.To(j + 2), end, "((", seen + "))");
  }

  lemma ListApart(s: string, i: nat, list: string, body: string)
    requires At(s, i, "in" + (list + ("((" + (body + "))"))))
    ensures var j := i + 2 + |list|;
            At(s, i, "in") && At(s, i + 2, list) && PairAt(s, j, body) && CharAt(s, i + 2) == First(list, '(')
  {
    AtEnclosed(s, i, "in", list, "((" + (body + "))"));
    PairApart(s, i + 2 + |list|, body);
  }

  /** Double parentheses around a text. */
  predicate PairAt(s: string, j: nat, body: string)
  {
    var k := j + 2 + |body|;
    At(s, j + 2, body) && k + 1 < |s| && s[j] == '(' && s[j + 1] == '(' && s[k] == ')' && s[k + 1] == ')'
  }

  lemma PairApart(s: string, j: nat, body: string)
    requires At(s, j, "((" + (body + "))"))
    ensures PairAt(s, j, body)
  {
    AtEnclosed(s, j, "((", body, "))");
    var k := j + 2 + |body|;
    var opening, closing := "((", "))";
    assert s[j] == opening[0] && s[j + 1] == opening[1] && s[k] == closing[0] && s[k + 1] == closing[1];
  }

  lemma BothOpen(l: Letters, s: string, at: Config, j: nat)
    requires Ready(at) && at.Top().kind == Code && at.Top().cases.OpensAPattern()
    requires j + 1 < |s| && s[j] == '(' && s[j + 1] == '('
    ensures Passes(l, s, at.To(j), at.To(j + 2), "((")
  {
    PatternOpenRound(l, s, at.To(j));
    PatternOpenRound(l, s, at.To(j + 1));
    PassesOn(l, s, at.To(j), at.To(j + 1), at.To(j + 2), "(", "(");
    assert "(" + "(" == "((";
  }

  lemma BothClose(l: Letters, s: string, c: Config, inside: Case, k: nat)
    requires Ready(c) && inside.depth > 0 && !inside.expecting && k + 1 < |s| && s[k] == ')' && s[k + 1] == ')'
    ensures Passes(l, s, c.Push(Code).WithCase(inside.(expecting := true)).To(k), c.To(k + 2), "))")
  {
    var at, mid := c.Push(Code).WithCase(inside.(expecting := true)).To(k), c.Push(Code).WithCase(inside).To(k + 1);
    assert at.To(k + 1).WithCase(inside) == mid;
    PatternCloseRound(l, s, at);
    assert mid.To(k + 2).Pop() == c.To(k + 2);
    CloseNext(l, s, mid);
    CodeRound(l, s, mid, false, c.To(k + 2));
    assert s[k + 1..k + 2] == ")";
    PassesOn(l, s, at, mid, c.To(k + 2), ")", ")");
    assert ")" + ")" == "))";
  }
}
