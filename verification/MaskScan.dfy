/** The loop of `_mask`, over a character array and a stack of frames, proved to leave the text `Mask` says. */
module MaskScan {
  import opened Options
  import opened Shell
  import opened Mask

  /** `_Frame` */
  datatype Frame = Frame(kind: Kind, cases: CaseState)

  /** What the scan has left so far, with what it will leave of the rest, is the masked text. */
  ghost predicate OnCourse(l: Letters, s: string, text: string, c: Config)
  {
    Fits(s, text, c.index, MaskFrom(l, s, c), MaskText(l, s))
  }

  /** The text is done up to `i` and untouched from there, and with `rest` in place of that it is the whole. */
  ghost predicate Fits(s: string, text: string, i: nat, rest: string, whole: string)
  {
    i <= |s| == |text| && text[..i] + rest == whole && text[i..] == s[i..]
  }

  lemma StaysOnCourse(l: Letters, s: string, before: string, now: string, c: Config, blank: bool, next: Config)
    requires OnCourse(l, s, before, c) && c.Goes(s) && Next(l, s, c) == (blank, next)
    requires if blank then Blanked(before, now, c.index, next.index) else now == before
    ensures OnCourse(l, s, now, next)
  {
    MaskStep(l, s, c, blank, next);
    StillFits(s, before, now, c.index, next.index, blank, MaskFrom(l, s, c), MaskFrom(l, s, next), MaskText(l, s));
  }

  lemma StillFits(s: string, before: string, now: string, from: nat, to: nat, blank: bool, rest: string, left: string,
                  whole: string)
    requires from <= to <= |s| && Fits(s, before, from, rest, whole) && rest == Left(s, from, to, blank) + left
    requires if blank then Blanked(before, now, from, to) else now == before
    ensures Fits(s, now, to, left, whole)
  {
    LeftInPlace(s, before, now, from, to, blank);
    assert before[..from] + (Left(s, from, to, blank) + left) == now[..to] + left;
  }

  lemma LeftInPlace(s: string, before: string, now: string, from: nat, to: nat, blank: bool)
    requires from <= to <= |s| == |before| && before[from..] == s[from..]
    requires if blank then Blanked(before, now, from, to) else now == before
    ensures |now| == |s| && now[to..] == s[to..] && now[..to] == before[..from] + Left(s, from, to, blank)
  {
    forall k | from <= k < |s| ensures before[k] == s[k] {
      assert before[k] == before[from..][k - from] == s[from..][k - from];
    }
    forall k | 0 <= k < to ensures now[k] == (before[..from] + Left(s, from, to, blank))[k] {
      if k >= from { assert s[from..to][k - from] == s[k]; }
    }
  }

  /** What `_mask` keeps in local variables. */
  class Scan {
    const source: string
    const letters: Letters
    const out: array<char>
    var index: nat
    var stack: seq<Frame>
    var pending: seq<Heredoc>
    ghost var levels: seq<Level>  // what the frames hold

    ghost function Owned(): set<object>
      reads this
    {
      {this, out} + set f <- stack :: f.cases
    }

    /** No two frames share their state. */
    ghost predicate Valid()
      reads Owned()
    {
      index <= |source| == out.Length && |stack| == |levels| > 0 &&
      (forall i, j :: 0 <= i < j < |stack| ==> stack[i].cases != stack[j].cases) &&
      forall i :: 0 <= i < |stack| ==> stack[i].kind == levels[i].kind && stack[i].cases.Value() == levels[i].cases
    }

    /** Where the scan stands. */
    ghost function Here(): Config
      reads this
    {
      Config(index, levels, pending, false)
    }

    constructor (source: string, letters: Letters)
      ensures Valid() && this.source == source && this.letters == letters && fresh(Owned())
      ensures Here() == START && out[..] == source
    {
      this.source, this.letters := source, letters;
      var copy := new char[|source|](i requires 0 <= i < |source| => source[i]);
      out := copy;
      var cases := new CaseState();
      index, stack, pending, levels := 0, [Frame(Code, cases)], [], [Level(Code, FRESH)];
      new;
      assert out[..] == source;
    }

    // ---- the moves ---------------------------------------------------------------------------------

    method Hide(end: nat)
      requires Valid() && index <= end <= |source|
      modifies this`index, out
      ensures Valid() && Here() == old(Here()).To(end) && Blanked(old(out[..]), out[..], old(index), end)
    {
      BlankRange(out, index, end);
      index := end;
    }

    /** `stack.append(_Frame(kind))` */
    method Push(kind: Kind)
      requires Valid()
      modifies this`stack, this`levels
      ensures Valid() && Here() == old(Here()).Push(kind) && fresh(Owned() - old(Owned()))
    {
      var cases := new CaseState();
      stack, levels := stack + [Frame(kind, cases)], levels + [Level(kind, FRESH)];
    }

    /** `stack.pop()` */
    method Pop()
      requires Valid() && |stack| > 1
      modifies this`stack, this`levels
      ensures Valid() && Here() == old(Here()).Pop() && Owned() <= old(Owned())
    {
      stack, levels := stack[..|stack| - 1], levels[..|levels| - 1];
    }

    /** The state of the top frame has become `now`. */
    ghost method Note(now: Case)
      requires index <= |source| == out.Length && |stack| == |levels| > 0
      requires forall i, j :: 0 <= i < j < |stack| ==> stack[i].cases != stack[j].cases
      requires forall i :: 0 <= i < |stack| - 1 ==>
                             stack[i].kind == levels[i].kind && stack[i].cases.Value() == levels[i].cases
      requires stack[|stack| - 1].kind == levels[|stack| - 1].kind && stack[|stack| - 1].cases.Value() == now
      modifies this`levels
      ensures Valid() && Here() == old(Here()).WithCase(now)
    {
      levels := levels[..|levels| - 1] + [levels[|levels| - 1].(cases := now)];
    }

    /** What the round did to the array: blanked what it read, or nothing. */
    twostate predicate Showed(blank: bool)
      reads this, out
    {
      if blank then Blanked(old(out[..]), out[..], old(index), index) else out[..] == old(out[..])
    }

    // ---- one round of the loop, by what stands there ------------------------------------------------

    /** `$((` or `${`, blanked whole. */
    method SkipWhole(open: char, close: char)
      requires Valid() && index + 1 < |source| && source[index + 1] == open != close
      modifies this`index, out
      ensures Valid() && Here() == old(Here()).To(BracketFrom(source, old(index) + 1, 0, open, close))
      ensures Blanked(old(out[..]), out[..], old(index), index)
    {
      index := SkipBracketed(source, index, open, close, out);
    }

    method Dollar()
      requires Valid() && index < |source|
      requires OpensArithmetic(source, index) || OpensParameter(source, index)
      modifies this`index, out
      ensures Valid() && Blanked(old(out[..]), out[..], old(index), index)
      ensures Here() ==
              if OpensArithmetic(source, old(index)) then
                old(Here()).To(BracketFrom(source, old(index) + 1, 0, '(', ')'))
              else old(Here()).To(BracketFrom(source, old(index) + 1, 0, '{', '}'))
    {
      if OpensArithmetic(source, index) {
        SkipWhole('(', ')');
      } else {
        SkipWhole('{', '}');
      }
    }

    method DoubleRound() returns (ghost blank: bool)
      requires Valid() && index < |source| && Here().Top().kind == Double && |stack| > 1
      modifies this`index, this`stack, this`levels, out
      ensures Valid() && fresh(Owned() - old(Owned()))
      ensures (blank, Here()) == NextInDouble(source, old(Here())) && Showed(blank)
    {
      blank := true;
      if source[index] == '"' {
        Hide(index + 1);
        Pop();
      } else if OpensArithmetic(source, index) || OpensParameter(source, index) {
        Dollar();
      } else if OpensSubstitution(source, index) {
        blank, index := false, index + 2;
        Push(Code);
      } else if source[index] == '`' {
        blank, index := false, index + 1;
        Push(Backtick);
      } else {
        Hide(index + 1);
      }
    }

    method QuoteInCode() returns (ghost blank: bool)
      requires Valid() && index < |source| && InCode(Here().Top().kind) && source[index] in "'\"`"
      requires Here().Top().kind == Backtick ==> |stack| > 1
      modifies this`index, this`stack, this`levels, out
      ensures Valid() && fresh(Owned() - old(Owned()))
      ensures (blank, Here()) == NextInCode(letters, source, old(Here())) && Showed(blank)
    {
      var c := source[index];
      if c == '`' {
        var closes := stack[|stack| - 1].kind == Backtick;
        blank, index := false, index + 1;
        if closes { Pop(); } else { Push(Backtick); }
      } else {
        blank := true;
        Hide(index + 1);
        Push(if c == '"' then Double else Single);
      }
    }

    method OpenParenthesis()
      requires Valid() && index < |source| && source[index] == '('
      modifies this`index, this`stack, this`levels
      ensures Valid() && fresh(Owned() - old(Owned())) && old(index) < index
      ensures (false, Here()) == NextInCode(letters, source, old(Here()))
    {
      var pattern := stack[|stack| - 1].cases.Value().OpensAPattern();
      index := index + 1;
      if !pattern { Push(Code); }
    }

    /** `frame.case.closes_a_pattern()` */
    method ClosesAPattern() returns (pattern: bool)
      requires Valid()
      modifies stack[|stack| - 1].cases, this`levels
      ensures Valid() && pattern == old(Here()).Top().cases.OpensAPattern()
      ensures Here() == if !pattern then old(Here())
                        else old(Here()).WithCase(old(Here()).Top().cases.(expecting := false))
    {
      pattern := stack[|stack| - 1].cases.ClosesAPattern();
      if pattern { Note(stack[|stack| - 1].cases.Value()); }
    }

    method CloseParenthesis()
      requires Valid() && index < |source| && source[index] == ')'
      modifies this`index, this`stack, this`levels, stack[|stack| - 1].cases
      ensures Valid() && Owned() <= old(Owned()) && old(index) < index
      ensures (false, Here()) == NextInCode(letters, source, old(Here()))
    {
      var pattern := ClosesAPattern();
      index := index + 1;
      if !pattern && stack[|stack| - 1].kind == Code && |stack| > 1 { Pop(); }
    }

    /** `frame.case.step(source, index)` */
    method HearWord() returns (next: Option<nat>)
      requires Valid() && index < |source|
      modifies stack[|stack| - 1].cases, this`levels
      ensures Valid() && index == old(index)
      ensures match old(Here()).Top().cases.Stepped(letters, source, index)
              case None => next == None && Here() == old(Here())
              case Some((end, now)) => next == Some(end) && Here() == old(Here()).WithCase(now)
    {
      next := stack[|stack| - 1].cases.Step(letters, source, index);
      if next.Some? { Note(stack[|stack| - 1].cases.Value()); }
    }

    /** Nothing that a character of its own opens or closes. */
    predicate Plain()
      reads this
      requires index < |source|
    {
      source[index] !in "\n'\"`()$" && !(source[index] == '#' && OpensAComment(source, index))
    }

    method WordInCode()
      requires Valid() && index < |source| && (Plain() || LoneDollar())
      modifies this`index, this`pending, this`levels, stack[|stack| - 1].cases
      ensures Valid() && old(index) < index
      ensures (false, Here()) == NextInCode(letters, source, old(Here()))
    {
      if OpensAHeredoc(letters, source, index) {
        HeredocInCode();
      } else {
        var next := HearWord();
        index := if next.Some? then next.value else index + 1;
      }
    }

    predicate LoneDollar()
      reads this
      requires index < |source|
    {
      source[index] == '$' && !OpensParameter(source, index) && !OpensSubstitution(source, index)
    }

    method HeredocInCode()
      requires Valid() && index < |source| && Plain() && OpensAHeredoc(letters, source, index)
      modifies this`index, this`pending
      ensures Valid() && old(index) < index
      ensures (false, Here()) == NextInCode(letters, source, old(Here()))
    {
      index, pending := NoteHeredoc(letters, source, index, pending);
    }

    method CodeRound() returns (ghost blank: bool)
      requires Valid() && index < |source| && source[index] != '\n' && InCode(Here().Top().kind)
      requires Here().Top().kind == Backtick ==> |stack| > 1
      modifies Owned()
      ensures Valid() && fresh(Owned() - old(Owned())) && old(index) < index
      ensures (blank, Here()) == NextInCode(letters, source, old(Here())) && Showed(blank)
    {
      var c := source[index];
      blank := false;
      if c == '#' && OpensAComment(source, index) {
        blank := true;
        Hide(LineEnd(source, index));
      } else if c in "'\"`" {
        blank := QuoteInCode();
      } else if c == '(' {
        OpenParenthesis();
      } else if OpensArithmetic(source, index) || OpensParameter(source, index) {
        blank := true;
        Dollar();
      } else if OpensSubstitution(source, index) {
        index := index + 2;
        Push(Code);
      } else if c == ')' {
        CloseParenthesis();
      } else {
        WordInCode();
      }
    }

    /** A newline: the heredocs that come due follow it. */
    method Newline()
      requires Valid() && index < |source| && source[index] == '\n'
      requires OnCourse(letters, source, out[..], Here())
      modifies this`index, this`pending, out
      ensures Valid() && old(index) < index && pending == [] && OnCourse(letters, source, out[..], Here())
    {
      ghost var c, before := Here(), out[..];
      index := index + 1;
      StaysOnCourse(letters, source, before, out[..], c, false, Here().(due := true));
      while pending != []
        invariant Valid() && old(index) < index && OnCourse(letters, source, out[..], Here().(due := true))
        decreases |pending|
      {
        DueHeredoc();
      }
      DueIsIdle(letters, source, Here(), true);
    }

    method DueHeredoc()
      requires Valid() && pending != [] && OnCourse(letters, source, out[..], Here().(due := true))
      modifies this`index, this`pending, out
      ensures Valid() && old(index) <= index && |pending| < |old(pending)|
      ensures OnCourse(letters, source, out[..], Here().(due := true))
    {
      ghost var c, before := Here().(due := true), out[..];
      var end := SkipHeredoc(source, index, pending[0], out);
      index, pending := end, pending[1..];
      StaysOnCourse(letters, source, before, out[..], c, true, Here().(due := true));
    }

    /** Any other character. */
    method Character() returns (ghost blank: bool)
      requires Valid() && Good(levels) && index < |source| && source[index] != '\n'
      modifies Owned()
      ensures Valid() && fresh(Owned() - old(Owned())) && old(index) < index
      ensures (blank, Here()) == Next(letters, source, old(Here())) && Showed(blank)
    {
      var kind := stack[|stack| - 1].kind;
      if kind == Single {
        blank := true;
        var closes := source[index] == '\'';
        Hide(index + 1);
        if closes { Pop(); }
      } else if source[index] == '\\' && index + 1 < |source| {
        blank := kind == Double;
        if kind == Double { Hide(index + 2); } else { index := index + 2; }
      } else if kind == Double {
        blank := DoubleRound();
      } else {
        blank := CodeRound();
      }
    }

    method Round()
      requires Valid() && Good(levels) && index < |source| && OnCourse(letters, source, out[..], Here())
      modifies Owned()
      ensures Valid() && Good(levels) && old(index) < index && fresh(Owned() - old(Owned()))
      ensures OnCourse(letters, source, out[..], Here())
    {
      if source[index] == '\n' {
        Newline();
      } else {
        ghost var c, before := Here(), out[..];
        ghost var blank := Character();
        NextIsGood(letters, source, c);
        StaysOnCourse(letters, source, before, out[..], c, blank, Here());
      }
    }
  }

  /** `_mask` */
  method Masked(source: string, letters: Letters) returns (text: string)
    ensures text == MaskText(letters, source)
    ensures Veils(source, text)
  {
    var scan := new Scan(source, letters);
    assert scan.out[..0] == "" && source[0..] == source;
    while scan.index < |source|
      invariant scan.Valid() && Good(scan.levels) && fresh(scan.Owned())
      invariant scan.source == source && scan.letters == letters
      invariant OnCourse(letters, source, scan.out[..], scan.Here())
      decreases |source| - scan.index
    {
      scan.Round();
    }
    text := scan.out[..];
    MaskVeils(letters, source, START);
  }
}
