/** What the shell gate's masker shows of a script: the rounds of `_mask`, and the laws of the text it leaves. */
module Mask {
  import opened Shell

  // ---- levels -------------------------------------------------------------------------------------

  /** `"code"`, `"dq"`, `"sq"` and `"bt"`. */
  datatype Kind = Code | Double | Single | Backtick

  /** What a `_Frame` holds. */
  datatype Level = Level(kind: Kind, cases: Case)

  predicate InCode(kind: Kind) { kind == Code || kind == Backtick }

  /** What one level may lie in. Nothing lies in single quotes. */
  predicate Within(inner: Kind, outer: Kind)
  {
    match inner
    case Code => outer != Single
    case Double => InCode(outer)
    case Single => InCode(outer)
    case Backtick => outer == Code || outer == Double
  }

  /** Where the scan stands. `due` says that the bodies of the pending heredocs begin here. */
  datatype Config = Config(index: nat, levels: seq<Level>, pending: seq<Heredoc>, due: bool) {
    function Top(): Level
      requires levels != []
    {
      levels[|levels| - 1]
    }

    function To(end: nat): Config { this.(index := end, due := false) }

    function Push(kind: Kind): Config { this.(levels := levels + [Level(kind, FRESH)]) }

    function Pop(): Config
      requires levels != []
    {
      this.(levels := levels[..|levels| - 1])
    }

    function WithCase(c: Case): Config
      requires levels != []
    {
      this.(levels := levels[..|levels| - 1] + [Top().(cases := c)])
    }

    /** `this` on a text: somewhere in it, on some level, or with a heredoc still due at its end. */
    predicate Goes(s: string)
    {
      levels != [] && index <= |s| && (index < |s| || (due && pending != []))
    }
  }

  const START := Config(0, [Level(Code, FRESH)], [], false)

  /** `source.startswith("${", i)` */
  predicate OpensParameter(s: string, i: nat)
    requires i < |s|
  {
    s[i] == '$' && i + 1 < |s| && s[i + 1] == '{'
  }

  /** `source.startswith("$(", i)` */
  predicate OpensSubstitution(s: string, i: nat)
    requires i < |s|
  {
    s[i] == '$' && i + 1 < |s| && s[i + 1] == '('
  }

  /** `source.startswith("$((", i)` */
  predicate OpensArithmetic(s: string, i: nat)
    requires i < |s|
  {
    OpensSubstitution(s, i) && i + 2 < |s| && s[i + 2] == '('
  }

  // ---- one round --------------------------------------------------------------------------------------

  /** Whether the round blanks what it reads, and where it leads. */
  function Next(l: Letters, s: string, c: Config): (r: (bool, Config))
    requires c.Goes(s)
    ensures c.index <= r.1.index <= |s| && (c.index < |s| ==> c.index < r.1.index)
    ensures c.index == |s| ==> |r.1.pending| < |c.pending|
  {
    if c.due && c.pending != [] then
      (true, c.(index := BodyEnd(s, c.index, c.pending[0]), pending := c.pending[1..]))
    else if s[c.index] == '\n' then (false, c.To(c.index + 1).(due := true))
    else if c.Top().kind == Single then
      (true, if s[c.index] == '\'' then c.To(c.index + 1).Pop() else c.To(c.index + 1))
    else if s[c.index] == '\\' && c.index + 1 < |s| then (c.Top().kind == Double, c.To(c.index + 2))
    else if c.Top().kind == Double then NextInDouble(s, c)
    else NextInCode(l, s, c)
  }

  function NextInDouble(s: string, c: Config): (r: (bool, Config))
    requires c.levels != [] && c.index < |s|
    ensures c.index < r.1.index <= |s|
  {
    if s[c.index] == '"' then (true, c.To(c.index + 1).Pop())
    else if OpensArithmetic(s, c.index) then (true, c.To(BracketFrom(s, c.index + 1, 0, '(', ')')))
    else if OpensParameter(s, c.index) then (true, c.To(BracketFrom(s, c.index + 1, 0, '{', '}')))
    else if OpensSubstitution(s, c.index) then (false, c.To(c.index + 2).Push(Code))
    else if s[c.index] == '`' then (false, c.To(c.index + 1).Push(Backtick))
    else (true, c.To(c.index + 1))
  }

  function NextInCode(l: Letters, s: string, c: Config): (r: (bool, Config))
    requires c.levels != [] && c.index < |s| && s[c.index] != '\n'
    ensures c.index < r.1.index <= |s|
  {
    var ch, i := s[c.index], c.index;
    if ch == '#' && OpensAComment(s, i) then (true, c.To(LineEnd(s, i)))
    else if ch == '\'' then (true, c.To(i + 1).Push(Single))
    else if ch == '"' then (true, c.To(i + 1).Push(Double))
    else if ch == '`' then (false, if c.Top().kind == Backtick then c.To(i + 1).Pop() else c.To(i + 1).Push(Backtick))
    else if ch == '(' then (false, if c.Top().cases.OpensAPattern() then c.To(i + 1) else c.To(i + 1).Push(Code))
    else if OpensArithmetic(s, i) then (true, c.To(BracketFrom(s, i + 1, 0, '(', ')')))
    else if OpensParameter(s, i) then (true, c.To(BracketFrom(s, i + 1, 0, '{', '}')))
    else if OpensSubstitution(s, i) then (false, c.To(i + 2).Push(Code))
    else if ch == ')' then (false, NextAtClosing(c))
    else if OpensAHeredoc(l, s, i) then
      var (h, end) := Announced(l, s, i);
      (false, c.To(end).(pending := if h.Some? then c.pending + [h.value] else c.pending))
    else
      match c.Top().cases.Stepped(l, s, i)
      case None => (false, c.To(i + 1))
      case Some((end, now)) => (false, c.To(end).WithCase(now))
  }

  /** A `)` ends a pattern, or the level if it is one that a parenthesis opened, and never the last. */
  function NextAtClosing(c: Config): Config
    requires c.levels != []
  {
    if c.Top().cases.OpensAPattern() then c.To(c.index + 1).WithCase(c.Top().cases.(expecting := false))
    else if c.Top().kind == Code && |c.levels| > 1 then c.To(c.index + 1).Pop()
    else c.To(c.index + 1)
  }

  /** What the round leaves of the text it reads. */
  function Left(s: string, from: nat, to: nat, blank: bool): (t: string)
    requires from <= to <= |s|
    ensures |t| == to - from
  {
    if blank then Blanks(s[from..to]) else s[from..to]
  }

  /** What is left of the text from here on. */
  function MaskFrom(l: Letters, s: string, c: Config): string
    decreases |s| - c.index, |c.pending|
  {
    if !c.Goes(s) then ""
    else
      var (blank, next) := Next(l, s, c);
      Left(s, c.index, next.index, blank) + MaskFrom(l, s, next)
  }

  /** What `_mask` returns. */
  function MaskText(l: Letters, s: string): string { MaskFrom(l, s, START) }

  // ---- every round keeps the levels in order -------------------------------------------------------------

  /** The script itself is at the bottom, every level lies in one that may hold it, and every `case` is sound. */
  ghost predicate Good(levels: seq<Level>)
  {
    levels != [] && levels[0].kind == Code && (forall i :: 0 <= i < |levels| ==> levels[i].cases.Sound()) &&
    forall i :: 0 < i < |levels| ==> Within(levels[i].kind, levels[i - 1].kind)
  }

  /** The character behind which a level of this kind begins. */
  predicate Opens(kind: Kind, c: char)
  {
    match kind
    case Code => c == '('
    case Double => c == '"'
    case Single => c == '\''
    case Backtick => c == '`'
  }

  /** The character behind which it ends. */
  predicate Closes(kind: Kind, c: char) { if kind == Code then c == ')' else Opens(kind, c) }

  /** One round enters a level behind its opener, leaves one behind its closer, or changes the `case` of the top. */
  ghost predicate Adjacent(c: char, a: seq<Level>, b: seq<Level>)
  {
    a == b || (b != [] && b[..|b| - 1] == a && Opens(b[|b| - 1].kind, c)) ||
    (a != [] && a[..|a| - 1] == b && Closes(a[|a| - 1].kind, c)) ||
    (a != [] && b != [] && a[..|a| - 1] == b[..|b| - 1] && a[|a| - 1].kind == b[|b| - 1].kind)
  }

  lemma PushIsGood(c: Config, kind: Kind, ch: char)
    requires Good(c.levels) && Within(kind, c.Top().kind) && Opens(kind, ch)
    ensures Good(c.Push(kind).levels) && Adjacent(ch, c.levels, c.Push(kind).levels)
  {
    var b := c.Push(kind).levels;
    assert b[..|b| - 1] == c.levels;
  }

  lemma PopIsGood(c: Config, ch: char)
    requires Good(c.levels) && |c.levels| > 1 && Closes(c.Top().kind, ch)
    ensures Good(c.Pop().levels) && Adjacent(ch, c.levels, c.Pop().levels)
  {
  }

  lemma WithCaseIsGood(c: Config, now: Case, ch: char)
    requires Good(c.levels) && now.Sound()
    ensures Good(c.WithCase(now).levels) && Adjacent(ch, c.levels, c.WithCase(now).levels)
  {
    var b := c.WithCase(now).levels;
    assert b[..|b| - 1] == c.levels[..|c.levels| - 1];
  }

  lemma DoubleIsGood(s: string, c: Config)
    requires Good(c.levels) && c.index < |s| && c.Top().kind == Double
    ensures var next := NextInDouble(s, c).1;
            Good(next.levels) && Adjacent(s[next.index - 1], c.levels, next.levels)
  {
    if s[c.index] == '"' {
      PopIsGood(c.To(c.index + 1), '"');
    } else if !OpensArithmetic(s, c.index) && !OpensParameter(s, c.index) {
      if OpensSubstitution(s, c.index) {
        PushIsGood(c.To(c.index + 2), Code, '(');
      } else if s[c.index] == '`' {
        PushIsGood(c.To(c.index + 1), Backtick, '`');
      }
    }
  }

  lemma CodeIsGood(l: Letters, s: string, c: Config)
    requires Good(c.levels) && c.index < |s| && s[c.index] != '\n' && InCode(c.Top().kind)
    ensures var next := NextInCode(l, s, c).1;
            Good(next.levels) && Adjacent(s[next.index - 1], c.levels, next.levels)
  {
    var ch, i := s[c.index], c.index;
    if ch == '\'' || ch == '"' || ch == '`' || ch == '(' {
      OpenerIsGood(l, s, c);
    } else if ch == ')' {
      ClosingIsGood(c, ')');
    } else if ch == '$' || ch == '#' {
      DollarIsGood(l, s, c);
    } else {
      WordIsGood(l, s, c);
    }
  }

  lemma DollarIsGood(l: Letters, s: string, c: Config)
    requires Good(c.levels) && c.index < |s| && (s[c.index] == '$' || s[c.index] == '#') && InCode(c.Top().kind)
    ensures var next := NextInCode(l, s, c).1;
            Good(next.levels) && Adjacent(s[next.index - 1], c.levels, next.levels)
  {
    var i := c.index;
    if OpensSubstitution(s, i) && !OpensArithmetic(s, i) {
      assert NextInCode(l, s, c).1 == c.To(i + 2).Push(Code);
      PushIsGood(c.To(i + 2), Code, '(');
    } else if !OpensSubstitution(s, i) && !OpensParameter(s, i) {
      StepIsGood(l, s, c);
    }
  }

  lemma WordIsGood(l: Letters, s: string, c: Config)
    requires Good(c.levels) && c.index < |s| && InCode(c.Top().kind)
    requires s[c.index] !in "\n'\"`()$#"
    ensures var next := NextInCode(l, s, c).1;
            Good(next.levels) && Adjacent(s[next.index - 1], c.levels, next.levels)
  {
    if !OpensAHeredoc(l, s, c.index) { StepIsGood(l, s, c); }
  }

  lemma StepIsGood(l: Letters, s: string, c: Config)
    requires Good(c.levels) && c.index < |s|
    ensures match c.Top().cases.Stepped(l, s, c.index)
            case None => true
            case Some((end, now)) =>
              Good(c.To(end).WithCase(now).levels) && Adjacent(s[end - 1], c.levels, c.To(end).WithCase(now).levels)
  {
    SoundStays(l, s, c.index, c.Top().cases);
    var stepped := c.Top().cases.Stepped(l, s, c.index);
    if stepped.Some? { WithCaseIsGood(c.To(stepped.value.0), stepped.value.1, s[stepped.value.0 - 1]); }
  }

  lemma OpenerIsGood(l: Letters, s: string, c: Config)
    requires Good(c.levels) && c.index < |s| && InCode(c.Top().kind)
    requires s[c.index] == '\'' || s[c.index] == '"' || s[c.index] == '`' || s[c.index] == '('
    ensures var next := NextInCode(l, s, c).1;
            Good(next.levels) && Adjacent(s[next.index - 1], c.levels, next.levels)
  {
    OpenerNext(l, s, c);
    var ch, on := s[c.index], c.To(c.index + 1);
    if ch == '\'' {
      PushIsGood(on, Single, ch);
    } else if ch == '"' {
      PushIsGood(on, Double, ch);
    } else if ch == '(' {
      PushIsGood(on, Code, ch);
    } else {
      BacktickIsGood(on);
    }
  }

  lemma OpenerNext(l: Letters, s: string, c: Config)
    requires c.levels != [] && c.index < |s|
    requires s[c.index] == '\'' || s[c.index] == '"' || s[c.index] == '`' || s[c.index] == '('
    ensures var on := c.To(c.index + 1);
            NextInCode(l, s, c).1 ==
            match s[c.index]
            case '\'' => on.Push(Single)
            case '"' => on.Push(Double)
            case '(' => if c.Top().cases.OpensAPattern() then on else on.Push(Code)
            case _ => if c.Top().kind == Backtick then on.Pop() else on.Push(Backtick)
  {
  }

  lemma BacktickIsGood(on: Config)
    requires Good(on.levels) && InCode(on.Top().kind)
    ensures var next := if on.Top().kind == Backtick then on.Pop() else on.Push(Backtick);
            Good(next.levels) && Adjacent('`', on.levels, next.levels)
  {
    if on.Top().kind == Backtick { PopIsGood(on, '`'); } else { PushIsGood(on, Backtick, '`'); }
  }

  lemma ClosingIsGood(c: Config, ch: char)
    requires Good(c.levels) && InCode(c.Top().kind) && ch == ')'
    ensures Good(NextAtClosing(c).levels) && Adjacent(ch, c.levels, NextAtClosing(c).levels)
  {
    var on := c.To(c.index + 1);
    if c.Top().cases.OpensAPattern() {
      WithCaseIsGood(on, c.Top().cases.(expecting := false), ch);
    } else if c.Top().kind == Code && |c.levels| > 1 {
      PopIsGood(on, ch);
    }
  }

  lemma NextByKind(l: Letters, s: string, c: Config)
    requires c.Goes(s)
    ensures (c.due && c.pending != []) || s[c.index] == '\n' ==> Next(l, s, c).1.levels == c.levels
    ensures !(c.due && c.pending != []) && s[c.index] != '\n' ==>
              Next(l, s, c).1 ==
              if c.Top().kind == Single then (if s[c.index] == '\'' then c.To(c.index + 1).Pop() else c.To(c.index + 1))
              else if s[c.index] == '\\' && c.index + 1 < |s| then c.To(c.index + 2)
              else if c.Top().kind == Double then NextInDouble(s, c).1
              else NextInCode(l, s, c).1
  {
  }

  /** The bottom level is never left, and levels open and close behind their own characters only. */
  lemma NextIsGood(l: Letters, s: string, c: Config)
    requires Good(c.levels) && c.Goes(s)
    ensures var next := Next(l, s, c).1;
            Good(next.levels) && (c.levels == next.levels || Adjacent(s[next.index - 1], c.levels, next.levels))
  {
    NextByKind(l, s, c);
    if !(c.due && c.pending != []) && s[c.index] != '\n' {
      if c.Top().kind == Single {
        if s[c.index] == '\'' { PopIsGood(c.To(c.index + 1), '\''); }
      } else if !(s[c.index] == '\\' && c.index + 1 < |s|) {
        if c.Top().kind == Double { DoubleIsGood(s, c); } else { CodeIsGood(l, s, c); }
      }
    }
  }

  /** Where `n` rounds lead. */
  function Run(l: Letters, s: string, c: Config, n: nat): Config
    decreases n
  {
    if n == 0 || !c.Goes(s) then c else Run(l, s, Next(l, s, c).1, n - 1)
  }

  /** So through every run. */
  lemma {:induction false} RunIsGood(l: Letters, s: string, c: Config, n: nat)
    requires Good(c.levels) && c.index <= |s|
    ensures Good(Run(l, s, c, n).levels) && c.index <= Run(l, s, c, n).index <= |s|
    decreases n
  {
    if n > 0 && c.Goes(s) {
      NextIsGood(l, s, c);
      RunIsGood(l, s, Next(l, s, c).1, n - 1);
    }
  }

  /** Every run comes to the end of the text, with nothing due. */
  lemma {:induction false} RunEnds(l: Letters, s: string, c: Config) returns (n: nat)
    requires Good(c.levels) && c.index <= |s|
    ensures Run(l, s, c, n).index == |s| && !Run(l, s, c, n).Goes(s)
    decreases |s| - c.index, |c.pending|
  {
    n := 0;
    if c.Goes(s) {
      NextIsGood(l, s, c);
      n := RunEnds(l, s, Next(l, s, c).1);
      n := n + 1;
    }
  }

  lemma SameBelow(a: seq<Level>, b: seq<Level>, depth: nat)
    requires a == b || exists ch :: Adjacent(ch, a, b)
    requires |a| > depth && |b| > depth
    ensures a[..depth] == b[..depth]
  {
    if a != b {
      var ch :| Adjacent(ch, a, b);
      if |b| == |a| + 1 {
        assert b[..|b| - 1][..depth] == b[..depth];
      } else if |a| == |b| + 1 {
        assert a[..|a| - 1][..depth] == a[..depth];
      } else {
        assert a[..|a| - 1][..depth] == a[..depth] && b[..|b| - 1][..depth] == b[..depth];
      }
    }
  }

  /** Through `n` rounds the levels are deeper than `depth`. */
  predicate StaysDeep(l: Letters, s: string, c: Config, n: nat, depth: nat)
    decreases n
  {
    |c.levels| > depth && (n > 0 && c.Goes(s) ==> StaysDeep(l, s, Next(l, s, c).1, n - 1, depth))
  }

  /** While they are, the levels below are not touched. */
  lemma {:induction false} BelowStays(l: Letters, s: string, c: Config, n: nat, depth: nat)
    requires Good(c.levels) && c.index <= |s| && StaysDeep(l, s, c, n, depth)
    ensures |Run(l, s, c, n).levels| > depth && Run(l, s, c, n).levels[..depth] == c.levels[..depth]
    decreases n
  {
    if n > 0 && c.Goes(s) {
      var next := Next(l, s, c).1;
      NextIsGood(l, s, c);
      BelowStays(l, s, next, n - 1, depth);
      SameBelow(c.levels, next.levels, depth);
    }
  }

  /** A substitution in double quotes is read as code, and behind its parenthesis the same quotes go on. */
  lemma SubstitutionInDouble(l: Letters, s: string, c: Config, n: nat)
    requires Good(c.levels) && c.Goes(s) && c.pending == [] && c.Top().kind == Double
    requires OpensSubstitution(s, c.index) && !OpensArithmetic(s, c.index)
    requires var inside := c.To(c.index + 2).Push(Code); var last := Run(l, s, inside, n);
             StaysDeep(l, s, inside, n, |c.levels|) && |last.levels| == |c.levels| + 1 && last.Goes(s) &&
             last.pending == [] && s[last.index] == ')' && !last.Top().cases.OpensAPattern() && last.Top().kind == Code
    ensures Next(l, s, c) == (false, c.To(c.index + 2).Push(Code))
    ensures Run(l, s, c, n + 2).levels == c.levels
  {
    var inside := c.To(c.index + 2).Push(Code);
    var last := Run(l, s, inside, n);
    NextIsGood(l, s, c);
    BelowStays(l, s, inside, n, |c.levels|);
    assert inside.levels[..|c.levels|] == c.levels;
    assert Next(l, s, last).1.levels == last.levels[..|c.levels|] == c.levels;
    RunOn(l, s, inside, n);
  }

  lemma {:induction false} RunOn(l: Letters, s: string, c: Config, n: nat)
    requires Run(l, s, c, n).Goes(s)
    ensures Run(l, s, c, n + 1) == Next(l, s, Run(l, s, c, n)).1
    decreases n
  {
    if n > 0 && c.Goes(s) { RunOn(l, s, Next(l, s, c).1, n - 1); }
  }

  // ---- what shows ------------------------------------------------------------------------------------

  /** The text keeps its length and its newlines, and every other character stays or becomes a space. */
  predicate Veils(was: string, now: string)
  {
    |now| == |was| && forall k :: 0 <= k < |was| ==> now[k] == was[k] || (now[k] == ' ' && was[k] != '\n')
  }

  lemma {:induction false} MaskVeils(l: Letters, s: string, c: Config)
    requires Good(c.levels) && c.index <= |s|
    ensures Veils(s[c.index..], MaskFrom(l, s, c))
    decreases |s| - c.index, |c.pending|
  {
    if c.Goes(s) {
      var (blank, next) := Next(l, s, c);
      NextIsGood(l, s, c);
      MaskVeils(l, s, next);
      VeilsOn(s, c.index, next.index, blank, MaskFrom(l, s, next));
    }
  }

  lemma VeilsOn(s: string, from: nat, to: nat, blank: bool, rest: string)
    requires from <= to <= |s| && Veils(s[to..], rest)
    ensures Veils(s[from..], Left(s, from, to, blank) + rest)
  {
    assert s[from..] == s[from..to] + s[to..];
  }

  /** One round of the text that is left. */
  lemma MaskStep(l: Letters, s: string, c: Config, blank: bool, next: Config)
    requires c.Goes(s) && Next(l, s, c) == (blank, next)
    ensures MaskFrom(l, s, c) == Left(s, c.index, next.index, blank) + MaskFrom(l, s, next)
  {
  }

  /** With nothing pending, nothing is due. */
  lemma DueIsIdle(l: Letters, s: string, c: Config, due: bool)
    requires c.pending == []
    ensures MaskFrom(l, s, c.(due := due)) == MaskFrom(l, s, c)
  {
    if c.Goes(s) {
      IdleNext(l, s, c, due);
      var (blank, next) := Next(l, s, c);
      MaskStep(l, s, c, blank, next);
      MaskStep(l, s, c.(due := due), blank, next);
    }
  }

  lemma IdleNext(l: Letters, s: string, c: Config, due: bool)
    requires c.pending == [] && c.Goes(s)
    ensures Next(l, s, c.(due := due)) == Next(l, s, c)
  {
    var d := c.(due := due);
    assert forall end: nat :: d.To(end) == c.To(end);
    assert NextInDouble(s, d) == NextInDouble(s, c);
    if s[c.index] != '\n' { IdleInCode(l, s, c, due); }
  }

  lemma IdleInCode(l: Letters, s: string, c: Config, due: bool)
    requires c.levels != [] && c.index < |s| && s[c.index] != '\n'
    ensures NextInCode(l, s, c.(due := due)) == NextInCode(l, s, c)
  {
    var d := c.(due := due);
    assert forall end: nat :: d.To(end) == c.To(end);
    assert d.Top() == c.Top() && NextAtClosing(d) == NextAtClosing(c);
  }

  /** From `a` the scan blanks all it reads until it stands at `b`. */
  predicate BlanksTo(l: Letters, s: string, a: Config, b: Config)
  {
    a.index <= b.index <= |s| && MaskFrom(l, s, a) == Blanks(s[a.index..b.index]) + MaskFrom(l, s, b)
  }

  lemma BlanksOn(l: Letters, s: string, a: Config, b: Config, c: Config)
    requires BlanksTo(l, s, a, b) && BlanksTo(l, s, b, c)
    ensures BlanksTo(l, s, a, c)
  {
    Joined(s, a.index, b.index, c.index, MaskFrom(l, s, a), MaskFrom(l, s, b), MaskFrom(l, s, c));
  }

  lemma Joined(s: string, a: nat, b: nat, c: nat, fromA: string, fromB: string, fromC: string)
    requires a <= b <= c <= |s| && fromA == Blanks(s[a..b]) + fromB && fromB == Blanks(s[b..c]) + fromC
    ensures fromA == Blanks(s[a..c]) + fromC
  {
    assert s[a..c] == s[a..b] + s[b..c];
    assert Blanks(s[a..c]) == Blanks(s[a..b]) + Blanks(s[b..c]);
  }

  /** A single-quoted string is blanked whole, whatever it holds, and the scan goes on as if it had not been. */
  lemma SingleQuoted(l: Letters, s: string, c: Config, j: nat)
    requires c.levels != [] && InCode(c.Top().kind) && c.pending == []
    requires c.index < j < |s| && s[c.index] == '\'' == s[j] && forall k :: c.index < k < j ==> s[k] != '\''
    ensures BlanksTo(l, s, c, c.To(j + 1))
  {
    var inside := c.To(c.index + 1).Push(Single);
    QuoteNext(l, s, c);
    MaskStep(l, s, c, true, inside);
    InSingle(l, s, c, c.index + 1, j);
    BlanksOn(l, s, c, inside, c.To(j + 1));
  }

  lemma QuoteNext(l: Letters, s: string, c: Config)
    requires c.Goes(s) && InCode(c.Top().kind) && c.pending == []
    ensures s[c.index] == '\'' ==> Next(l, s, c) == (true, c.To(c.index + 1).Push(Single))
    ensures s[c.index] == '"' ==> Next(l, s, c) == (true, c.To(c.index + 1).Push(Double))
  {
  }

  lemma {:induction false} InSingle(l: Letters, s: string, c: Config, i: nat, j: nat)
    requires c.levels != [] && c.pending == []
    requires i <= j < |s| && s[j] == '\'' && forall k :: i <= k < j ==> s[k] != '\''
    ensures BlanksTo(l, s, c.To(i).Push(Single), c.To(j + 1))
    decreases j - i
  {
    SingleNext(l, s, c, i);
    if i < j {
      assert s[i] != '\'';
      InSingle(l, s, c, i + 1, j);
      BlanksOn(l, s, c.To(i).Push(Single), c.To(i + 1).Push(Single), c.To(j + 1));
    }
  }

  /** One character in single quotes. */
  lemma SingleNext(l: Letters, s: string, c: Config, i: nat)
    requires c.levels != [] && c.pending == [] && i < |s|
    ensures BlanksTo(l, s, c.To(i).Push(Single), if s[i] == '\'' then c.To(i + 1) else c.To(i + 1).Push(Single))
  {
    var here, next := c.To(i).Push(Single), c.To(i + 1).Push(Single);
    if s[i] == '\n' {
      assert Next(l, s, here) == (false, next.(due := true));
      MaskStep(l, s, here, false, next.(due := true));
      DueIsIdle(l, s, next, true);
      assert Blanks(s[i..i + 1]) == s[i..i + 1];
    } else if s[i] == '\'' {
      assert next.Pop() == c.To(i + 1);
      MaskStep(l, s, here, true, c.To(i + 1));
    } else {
      MaskStep(l, s, here, true, next);
    }
  }

  /** What may stand in double quotes up to `j` without leaving them or opening anything: escapes, and whatever is no
      quote, backslash, dollar sign or backtick. */
  predicate Flat(s: string, i: nat, j: nat)
    requires j <= |s|
    decreases j - i
  {
    i == j ||
    (i < j && if s[i] == '\\' then i + 2 <= j && Flat(s, i + 2, j) else s[i] !in "\"$`" && Flat(s, i + 1, j))
  }

  /** So is a double-quoted string that opens nothing. */
  lemma DoubleQuoted(l: Letters, s: string, c: Config, j: nat)
    requires c.levels != [] && InCode(c.Top().kind) && c.pending == []
    requires c.index < j < |s| && s[c.index] == '"' == s[j] && Flat(s, c.index + 1, j)
    ensures BlanksTo(l, s, c, c.To(j + 1))
  {
    var inside := c.To(c.index + 1).Push(Double);
    QuoteNext(l, s, c);
    MaskStep(l, s, c, true, inside);
    InFlat(l, s, c, c.index + 1, j);
    BlanksOn(l, s, c, inside, c.To(j + 1));
  }

  lemma {:induction false} InFlat(l: Letters, s: string, c: Config, i: nat, j: nat)
    requires c.levels != [] && c.pending == [] && i <= j < |s| && s[j] == '"' && Flat(s, i, j)
    ensures BlanksTo(l, s, c.To(i).Push(Double), c.To(j + 1))
    decreases j - i
  {
    var here := c.To(i).Push(Double);
    if i == j {
      ClosingQuote(l, s, c, j);
    } else {
      var n := if s[i] == '\\' then 2 else 1;
      FlatNext(l, s, c, i, n);
      InFlat(l, s, c, i + n, j);
      BlanksOn(l, s, here, c.To(i + n).Push(Double), c.To(j + 1));
    }
  }

  lemma ClosingQuote(l: Letters, s: string, c: Config, j: nat)
    requires c.levels != [] && c.pending == [] && j < |s| && s[j] == '"'
    ensures BlanksTo(l, s, c.To(j).Push(Double), c.To(j + 1))
  {
    var here := c.To(j).Push(Double);
    assert here.To(j + 1).Pop() == c.To(j + 1);
    assert Next(l, s, here) == (true, c.To(j + 1));
    MaskStep(l, s, here, true, c.To(j + 1));
  }

  /** One escape, or one plain character, in double quotes. */
  lemma FlatNext(l: Letters, s: string, c: Config, i: nat, n: nat)
    requires c.levels != [] && c.pending == [] && i + n <= |s|
    requires if n == 2 then s[i] == '\\' else n == 1 && s[i] !in "\\\"$`"
    ensures BlanksTo(l, s, c.To(i).Push(Double), c.To(i + n).Push(Double))
  {
    var here, next := c.To(i).Push(Double), c.To(i + n).Push(Double);
    if s[i] == '\n' {
      assert Next(l, s, here) == (false, next.(due := true));
      MaskStep(l, s, here, false, next.(due := true));
      DueIsIdle(l, s, next, true);
      assert Blanks(s[i..i + 1]) == s[i..i + 1];
    } else {
      assert Next(l, s, here) == (true, next);
      MaskStep(l, s, here, true, next);
    }
  }

  /** A comment is blanked to the end of its line, and the newline behind it ends it. */
  lemma CommentBlanked(l: Letters, s: string, c: Config)
    requires c.Goes(s) && c.pending == [] && InCode(c.Top().kind) && s[c.index] == '#' && OpensAComment(s, c.index)
    ensures BlanksTo(l, s, c, c.To(LineEnd(s, c.index)))
  {
  }

  lemma BodyBlanked(l: Letters, s: string, c: Config)
    requires c.Goes(s) && c.due && c.pending != []
    ensures BlanksTo(l, s, c, c.(index := BodyEnd(s, c.index, c.pending[0]), pending := c.pending[1..]))
  {
  }

  lemma NewlineMakesDue(l: Letters, s: string, c: Config)
    requires c.Goes(s) && !c.due && s[c.index] == '\n'
    ensures MaskFrom(l, s, c) == "\n" + MaskFrom(l, s, c.(index := c.index + 1, due := true))
  {
    var next := c.(index := c.index + 1, due := true);
    assert Next(l, s, c) == (false, next);
    MaskStep(l, s, c, false, next);
    assert s[c.index..c.index + 1] == "\n";
  }

  /** Where the last of these bodies ends, the first beginning at `i`. */
  function BodiesEnd(s: string, i: nat, hs: seq<Heredoc>): (end: nat)
    requires i <= |s|
    ensures i <= end <= |s|
    decreases |hs|
  {
    if hs == [] then i else BodiesEnd(s, BodyEnd(s, i, hs[0]), hs[1..])
  }

  /** The bodies that are due are blanked one after another, each through its terminator. */
  lemma {:induction false} BodiesBlanked(l: Letters, s: string, c: Config)
    requires c.levels != [] && c.index <= |s| && c.due
    ensures BlanksTo(l, s, c, c.(index := BodiesEnd(s, c.index, c.pending), pending := []))
    decreases |c.pending|
  {
    if c.pending != [] {
      var next := c.(index := BodyEnd(s, c.index, c.pending[0]), pending := c.pending[1..]);
      BodyBlanked(l, s, c);
      BodiesBlanked(l, s, next);
      BlanksOn(l, s, c, next, next.(index := BodiesEnd(s, next.index, next.pending), pending := []));
    } else {
      assert s[c.index..c.index] == "" && c.(pending := []) == c;
    }
  }

  /** None of the next `n` rounds begins at a newline. */
  predicate OnOneLine(l: Letters, s: string, c: Config, n: nat)
    decreases n
  {
    n > 0 && c.Goes(s) ==> !c.due && s[c.index] != '\n' && OnOneLine(l, s, Next(l, s, c).1, n - 1)
  }

  lemma PendingGrows(l: Letters, s: string, c: Config)
    requires c.Goes(s) && !c.due && s[c.index] != '\n'
    ensures c.pending <= Next(l, s, c).1.pending && !Next(l, s, c).1.due
  {
  }

  /** To the end of a line what was announced stays pending, in order, and none of it is due. */
  lemma {:induction false} PendingStays(l: Letters, s: string, c: Config, n: nat)
    requires Good(c.levels) && c.index <= |s| && !c.due && OnOneLine(l, s, c, n)
    ensures c.pending <= Run(l, s, c, n).pending && !Run(l, s, c, n).due
    decreases n
  {
    if n > 0 && c.Goes(s) {
      var next := Next(l, s, c).1;
      NextIsGood(l, s, c);
      PendingGrows(l, s, c);
      PendingStays(l, s, next, n - 1);
    }
  }

  predicate AtNewline(s: string, c: Config) { c.index < |s| && s[c.index] == '\n' }

  /** The newline stays, what is pending is blanked behind it, and the scan goes on from there on the same level. */
  ghost predicate LineIsBlanked(l: Letters, s: string, c: Config)
  {
    AtNewline(s, c) &&
    var from, to := c.index + 1, BodiesEnd(s, c.index + 1, c.pending);
    MaskFrom(l, s, c) == "\n" + Blanks(s[from..to]) + MaskFrom(l, s, c.(index := to, pending := []))
  }

  /** Behind the newline the bodies of all that is pending are blanked, and then the scan goes on where it was. */
  lemma LineBlanked(l: Letters, s: string, c: Config)
    requires c.levels != [] && !c.due && AtNewline(s, c)
    ensures LineIsBlanked(l, s, c)
  {
    var due := c.(index := c.index + 1, due := true);
    var on := c.(index := BodiesEnd(s, due.index, due.pending), pending := []);
    assert MaskFrom(l, s, c) == "\n" + MaskFrom(l, s, due) by { NewlineMakesDue(l, s, c); }
    assert MaskFrom(l, s, due) == Blanks(s[due.index..on.index]) + MaskFrom(l, s, on.(due := true)) by {
      BodiesBlanked(l, s, due);
      assert due.(index := on.index, pending := []) == on.(due := true);
    }
    assert MaskFrom(l, s, on.(due := true)) == MaskFrom(l, s, on) by { DueIsIdle(l, s, on, true); }
    Regrouped("\n", Blanks(s[due.index..on.index]), MaskFrom(l, s, on));
  }

  lemma Regrouped(a: string, b: string, c: string)
    ensures a + (b + c) == a + b + c
  {
  }

  lemma HeredocNext(l: Letters, s: string, c: Config)
    requires c.Goes(s) && !c.due && InCode(c.Top().kind)
    requires s[c.index] == '<' && OpensAHeredoc(l, s, c.index) && Announced(l, s, c.index).0.Some?
    ensures Next(l, s, c) == (false, Behind(l, s, c))
  {
  }

  /** Behind the announcement. */
  function Behind(l: Letters, s: string, c: Config): Config
    requires c.index + 2 <= |s| && Announced(l, s, c.index).0.Some?
  {
    c.(index := Announced(l, s, c.index).1, pending := c.pending + [Announced(l, s, c.index).0.value])
  }

  /** From the announcement of a heredoc to the end of its body: whatever the rest of its line holds, and on whatever
      level the line ends, the newline stays, and behind it the bodies of all that was announced are blanked in order,
      each through its terminator; then the scan goes on where it was. */
  lemma HeredocBlanked(l: Letters, s: string, c: Config, behind: Config, n: nat)
    requires Good(c.levels) && c.Goes(s) && !c.due && InCode(c.Top().kind)
    requires s[c.index] == '<' && OpensAHeredoc(l, s, c.index) && Announced(l, s, c.index).0.Some?
    requires behind == Behind(l, s, c) && OnOneLine(l, s, behind, n) && AtNewline(s, Run(l, s, behind, n))
    ensures Next(l, s, c) == (false, behind) && behind.pending <= Run(l, s, behind, n).pending
    ensures LineIsBlanked(l, s, Run(l, s, behind, n))
  {
    HeredocNext(l, s, c);
    assert Good(behind.levels) && behind.index <= |s| && !behind.due;
    ToTheNextLine(l, s, behind, n);
  }

  lemma ToTheNextLine(l: Letters, s: string, c: Config, n: nat)
    requires Good(c.levels) && c.index <= |s| && !c.due && OnOneLine(l, s, c, n) && AtNewline(s, Run(l, s, c, n))
    ensures c.pending <= Run(l, s, c, n).pending && LineIsBlanked(l, s, Run(l, s, c, n))
  {
    PendingStays(l, s, c, n);
    RunIsGood(l, s, c, n);
    LineBlanked(l, s, Run(l, s, c, n));
  }
}
