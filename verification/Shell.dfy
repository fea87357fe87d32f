/** The small readers of the shell gate's masker: words, the state of a `case`, brackets, heredocs. */
module Shell {
  import opened Options
  import opened Text

  // ---- characters and words ---------------------------------------------------------------------

  /** What `str.isalpha` and `str.isdigit` admit, and what else `str.isalnum` does. */
  datatype Letters = Letters(alpha: set<char>, digit: set<char>, numeric: set<char>) {
    predicate Alnum(c: char) { c in alpha || c in digit || c in numeric }

    predicate InWord(c: char) { Alnum(c) || c == '_' || c == '-' }

    predicate InDelimiter(c: char) { Alnum(c) || c in "_-." }
  }

  /** What stands before `i`, or `otherwise` at the start. */
  function Before(s: string, i: nat, otherwise: char): char
    requires i <= |s|
  {
    if i == 0 then otherwise else s[i - 1]
  }

  /** `_starts_a_word` */
  predicate StartsAWord(l: Letters, s: string, i: nat)
    requires i < |s|
  {
    (s[i] in l.alpha || s[i] == '_') && !(l.InWord(Before(s, i, ' ')) || Before(s, i, ' ') == '$')
  }

  /** The first index from `i` on at which no word goes on. */
  function WordEnd(l: Letters, s: string, i: nat): (end: nat)
    requires i <= |s|
    ensures i <= end <= |s| && (forall k :: i <= k < end ==> l.InWord(s[k])) && (end < |s| ==> !l.InWord(s[end]))
    decreases |s| - i
  {
    if i < |s| && l.InWord(s[i]) then WordEnd(l, s, i + 1) else i
  }

  /** `s[i..end]` is a word up to where it ends. */
  ghost predicate IsWordAt(l: Letters, s: string, i: nat, end: nat)
  {
    i < end <= |s| && (forall k :: i <= k < end ==> l.InWord(s[k])) && (end < |s| ==> !l.InWord(s[end]))
  }

  // ---- where one level sits inside a `case` -------------------------------------------------------

  /** The arm terminator at `i`, by its length: `;;&`, `;;`, `;&`, or none. */
  function Terminator(s: string, i: nat): (n: nat)
    requires i <= |s|
    ensures i + n <= |s|
  {
    if ";;&" <= s[i..] then 3 else if ";;" <= s[i..] || ";&" <= s[i..] then 2 else 0
  }

  /** The fields of a `_CaseState`. */
  datatype Case = Case(depth: nat, expecting: bool) {
    /** A pattern is expected inside a `case` only. */
    predicate Sound() { expecting ==> depth > 0 }

    /** `opens_a_pattern` */
    predicate OpensAPattern() { expecting && depth > 0 }

    /** What reading a word makes of the state. */
    function Heard(word: string): Case
    {
      if word == "case" then Case(depth + 1, expecting)
      else if word == "esac" then Case(if depth > 0 then depth - 1 else 0, false)
      else if word == "in" && depth > 0 then Case(depth, true)
      else this
    }

    /** What the terminator or the word at `i` makes of it, and the index past that. */
    function Stepped(l: Letters, s: string, i: nat): (r: Option<(nat, Case)>)
      requires i < |s|
      ensures r.Some? ==> i < r.value.0 <= |s|
    {
      var t := Terminator(s, i);
      if t > 0 then Some((i + t, Case(depth, depth > 0)))
      else if StartsAWord(l, s, i) then
        assert l.InWord(s[i]);
        Some((WordEnd(l, s, i), Heard(s[i..WordEnd(l, s, i)])))
      else None
    }
  }

  /** The expectation never outlives the `case`, so asking for both fields asks for one. */
  lemma SoundStays(l: Letters, s: string, i: nat, c: Case)
    requires i < |s| && c.Sound()
    ensures c.OpensAPattern() <==> c.expecting
    ensures c.Stepped(l, s, i).Some? ==> c.Stepped(l, s, i).value.1.Sound()
  {
  }

  const FRESH := Case(0, false)

  /** `_CaseState` */
  class CaseState {
    var depth: nat
    var expectingPattern: bool

    function Value(): Case
      reads this
    {
      Case(depth, expectingPattern)
    }

    constructor ()
      ensures Value() == FRESH
    {
      depth, expectingPattern := 0, false;
    }

    /** `closes_a_pattern` */
    method ClosesAPattern() returns (closes: bool)
      modifies this
      ensures closes == old(Value()).OpensAPattern()
      ensures Value() == if closes then old(Value()).(expecting := false) else old(Value())
    {
      if expectingPattern && depth > 0 {
        expectingPattern := false;
        return true;
      }
      return false;
    }

    /** `step` */
    method Step(l: Letters, text: string, index: nat) returns (next: Option<nat>)
      requires index < |text|
      modifies this
      ensures match old(Value()).Stepped(l, text, index)
              case None => next == None && Value() == old(Value())
              case Some((end, now)) => next == Some(end) && Value() == now
      ensures var ends := ";;" <= text[index..] || ";&" <= text[index..];
              (ends ==> next == Some(index + if ";;&" <= text[index..] then 3 else 2) &&
                        depth == old(depth) && expectingPattern == (depth > 0)) &&
              (!ends ==> (next.Some? <==> StartsAWord(l, text, index))) &&
              (next.None? ==> depth == old(depth) && expectingPattern == old(expectingPattern))
      ensures !(";;" <= text[index..] || ";&" <= text[index..]) && next.Some? ==>
                IsWordAt(l, text, index, next.value) &&
                var word := text[index..next.value];
                depth == (if word == "case" then old(depth) + 1
                          else if word == "esac" && old(depth) > 0 then old(depth) - 1 else old(depth)) &&
                expectingPattern == (if word == "esac" then false
                                     else if word == "in" && old(depth) > 0 then true else old(expectingPattern))
    {
      var length := Terminator(text, index);
      if length > 0 {
        expectingPattern := depth > 0;
        return Some(index + length);
      }
      if !StartsAWord(l, text, index) { return None; }
      var end := index;
      while end < |text| && l.InWord(text[end])
        invariant index <= end <= |text| && WordEnd(l, text, end) == WordEnd(l, text, index)
      {
        end := end + 1;
      }
      var word := text[index..end];
      if word == "case" {
        depth := depth + 1;
      } else if word == "esac" {
        depth := if depth > 0 then depth - 1 else 0;
        expectingPattern := false;
      } else if word == "in" && depth > 0 {
        expectingPattern := true;
      }
      return Some(end);
    }
  }

  // ---- blanking -----------------------------------------------------------------------------------

  /** Every character but newlines made a space. */
  function Blanks(s: string): (b: string)
    ensures |b| == |s| && forall k :: 0 <= k < |s| ==> b[k] == if s[k] == '\n' then '\n' else ' '
  {
    seq(|s|, k requires 0 <= k < |s| => if s[k] == '\n' then '\n' else ' ')
  }

  /** `now` is `before` with everything from `from` to `to` blanked. */
  predicate Blanked(before: string, now: string, from: nat, to: nat)
  {
    |now| == |before| &&
    forall k :: 0 <= k < |now| ==> now[k] == if from <= k < to && before[k] != '\n' then ' ' else before[k]
  }

  method BlankRange(out: array<char>, from: nat, to: nat)
    requires from <= to <= out.Length
    modifies out
    ensures Blanked(old(out[..]), out[..], from, to)
  {
    for k := from to to
      invariant Blanked(old(out[..]), out[..], from, k)
    {
      if out[k] != '\n' { out[k] := ' '; }
    }
  }

  // ---- brackets -----------------------------------------------------------------------------------

  /** How many more brackets open than close in `s[from..to]`. */
  function Depth(s: string, open: char, close: char, from: nat, to: nat): int
    requires from <= to <= |s|
  {
    if from == to then 0
    else
      Depth(s, open, close, from, to - 1) +
      if s[to - 1] == open then 1 else if s[to - 1] == close then -1 else 0
  }

  /** At `to` the bracket behind the `$` at `index` is not balanced yet. */
  predicate IsOpen(s: string, open: char, close: char, index: nat, to: nat)
    requires index + 1 <= to <= |s|
  {
    Depth(s, open, close, index + 1, to) > 0
  }

  /** `end` is just past where that bracket balances, or the end of a text where it never does. */
  ghost predicate Balances(s: string, index: nat, end: nat, open: char, close: char)
  {
    index + 1 < end <= |s| && (forall j :: index + 1 < j < end ==> IsOpen(s, open, close, index, j)) &&
    (end == |s| || Depth(s, open, close, index + 1, end) == 0)
  }

  /** The walk of `_skip_arithmetic` and `_skip_expansion` from `i` on, `depth` brackets deep. */
  function BracketFrom(s: string, i: nat, depth: int, open: char, close: char): (end: nat)
    requires i <= |s|
    ensures i <= end <= |s| && (i < |s| ==> i < end)
    decreases |s| - i
  {
    if i == |s| then i
    else if s[i] == open then BracketFrom(s, i + 1, depth + 1, open, close)
    else if s[i] == close && depth == 1 then i + 1
    else BracketFrom(s, i + 1, if s[i] == close then depth - 1 else depth, open, close)
  }

  lemma {:induction false} BracketBalances(s: string, index: nat, i: nat, open: char, close: char)
    requires index + 1 <= i <= |s| && index + 1 < |s| && s[index + 1] == open != close
    requires forall j :: index + 1 < j <= i ==> IsOpen(s, open, close, index, j)
    ensures Balances(s, index, BracketFrom(s, i, Depth(s, open, close, index + 1, i), open, close), open, close)
    decreases |s| - i
  {
    var depth := Depth(s, open, close, index + 1, i);
    assert i > index + 1 ==> IsOpen(s, open, close, index, i);
    if i < |s| && !(s[i] == close && depth == 1) {
      BracketBalances(s, index, i + 1, open, close);
    } else if i < |s| {
      assert Depth(s, open, close, index + 1, i + 1) == 0;
    }
  }

  /** `_skip_arithmetic` and `_skip_expansion`: blank through the bracket that balances the one behind the `$`, or to
      the end. */
  method SkipBracketed(source: string, index: nat, open: char, close: char, out: array<char>) returns (end: nat)
    requires index + 1 < |source| == out.Length && source[index + 1] == open != close
    modifies out
    ensures end == BracketFrom(source, index + 1, 0, open, close)
    ensures Blanked(old(out[..]), out[..], index, end) && Balances(source, index, end, open, close)
  {
    var depth, position := 0, index + 1;
    while position < |source|
      invariant index + 1 <= position <= |source|
      invariant BracketFrom(source, position, depth, open, close) == BracketFrom(source, index + 1, 0, open, close)
    {
      if source[position] == open {
        depth := depth + 1;
      } else if source[position] == close {
        depth := depth - 1;
        if depth == 0 { break; }
      }
      position := position + 1;
    }
    end := if position + 1 < |source| then position + 1 else |source|;
    BlankRange(out, index, end);
    BracketBalances(source, index, index + 1, open, close);
  }

  // ---- heredocs -----------------------------------------------------------------------------------

  datatype Heredoc = Heredoc(delimiter: string, stripTabs: bool)

  /** `_opens_a_heredoc` */
  predicate OpensAHeredoc(l: Letters, s: string, i: nat)
    requires i < |s|
  {
    "<<" <= s[i..] && !("<<<" <= s[i..]) &&
    (Before(s, i, '\n') in " \t\n;&|()" || Before(s, i, '\n') in l.digit)
  }

  /** `_opens_a_comment` */
  predicate OpensAComment(s: string, i: nat)
    requires i < |s|
  {
    i == 0 || s[i - 1] in " \t\n;&|()"
  }

  /** The next newline from `i` on, or the end. */
  function LineEnd(s: string, i: nat): (e: nat)
    requires i <= |s|
    ensures i <= e <= |s| && (e < |s| ==> s[e] == '\n') && forall k :: i <= k < e ==> s[k] != '\n'
    decreases |s| - i
  {
    if i == |s| || s[i] == '\n' then i else LineEnd(s, i + 1)
  }

  /** Past the line at `i`, its newline included. */
  function LineAfter(s: string, i: nat): (n: nat)
    requires i <= |s|
    ensures i <= n <= |s| && (i < |s| ==> i < n)
  {
    if LineEnd(s, i) < |s| then LineEnd(s, i) + 1 else |s|
  }

  /** `line.lstrip("\t")` */
  function WithoutTabs(s: string): string
  {
    if s != "" && s[0] == '\t' then WithoutTabs(s[1..]) else s
  }

  predicate Ends(h: Heredoc, line: string)
  {
    Strip(if h.stripTabs then WithoutTabs(line) else line) == h.delimiter
  }

  /** A line of the source starts at `i`, among those from `from` on. */
  predicate LineStart(s: string, from: nat, i: int) { from <= i < |s| && (i == from || s[i - 1] == '\n') }

  /** The lines from `from` up to `to` hold no terminator. */
  ghost predicate NoneEnds(h: Heredoc, s: string, from: nat, to: nat)
    requires to <= |s|
  {
    forall i :: LineStart(s, from, i) && i < to ==> !Ends(h, s[i..LineEnd(s, i)])
  }

  /** `end` is just past the first line that is the delimiter, or the end of a text without one. */
  ghost predicate RunsTo(s: string, index: nat, end: nat, h: Heredoc)
  {
    (end == |s| && NoneEnds(h, s, index, |s|)) ||
    exists i :: LineStart(s, index, i) && NoneEnds(h, s, index, i) && Ends(h, s[i..LineEnd(s, i)]) &&
                end == LineAfter(s, i)
  }

  /** Where the body that starts at `i` ends. */
  function BodyEnd(s: string, i: nat, h: Heredoc): (end: nat)
    requires i <= |s|
    ensures i <= end <= |s| && (i < |s| ==> i < end)
    decreases |s| - i
  {
    if i == |s| then i
    else if Ends(h, s[i..LineEnd(s, i)]) then LineAfter(s, i)
    else BodyEnd(s, LineAfter(s, i), h)
  }

  /** `_skip_heredoc`: blank through the first line that is the delimiter, or to the end. */
  method SkipHeredoc(source: string, index: nat, h: Heredoc, out: array<char>) returns (end: nat)
    requires index <= |source| == out.Length
    modifies out
    ensures end == BodyEnd(source, index, h) && RunsTo(source, index, end, h)
    ensures Blanked(old(out[..]), out[..], index, end)
  {
    var at := index;
    while at < |source|
      invariant index <= at <= |source| && Blanked(old(out[..]), out[..], index, at)
      invariant BodyEnd(source, at, h) == BodyEnd(source, index, h)
      invariant at < |source| ==> LineStart(source, index, at)
      invariant NoneEnds(h, source, index, at)
    {
      var next := LineAfter(source, at);
      BlankRange(out, at, next);
      if Ends(h, source[at..LineEnd(source, at)]) {
        return next;
      }
      OneMoreLine(h, source, index, at);
      at := next;
    }
    return |source|;
  }

  lemma OneMoreLine(h: Heredoc, s: string, from: nat, at: nat)
    requires LineStart(s, from, at) && NoneEnds(h, s, from, at) && !Ends(h, s[at..LineEnd(s, at)])
    ensures NoneEnds(h, s, from, LineAfter(s, at))
  {
    forall i | LineStart(s, from, i) && i < LineAfter(s, at) ensures !Ends(h, s[i..LineEnd(s, i)]) {
      if i > at { assert false; }
    }
  }

  function PastBlanks(s: string, i: nat): (j: nat)
    requires i <= |s|
    ensures i <= j <= |s|
    decreases |s| - i
  {
    if i < |s| && s[i] in " \t" then PastBlanks(s, i + 1) else i
  }

  function PastDelimiter(l: Letters, s: string, i: nat): (j: nat)
    requires i <= |s|
    ensures i <= j <= |s| && forall k :: i <= k < j ==> l.InDelimiter(s[k])
    decreases |s| - i
  {
    if i < |s| && l.InDelimiter(s[i]) then PastDelimiter(l, s, i + 1) else i
  }

  /** What the redirection at `i` announces, if it names a delimiter, and where the line goes on. */
  function Announced(l: Letters, s: string, i: nat): (r: (Option<Heredoc>, nat))
    requires i + 2 <= |s|
    ensures i + 2 <= r.1 <= |s|
  {
    var strip := i + 2 < |s| && s[i + 2] == '-';
    var word := PastBlanks(s, if strip then i + 3 else i + 2);
    var quoted := word < |s| && s[word] in "'\"";
    var start := if quoted then word + 1 else word;
    var stop := PastDelimiter(l, s, start);
    (if start < stop then Some(Heredoc(s[start..stop], strip)) else None,
     if quoted && stop < |s| && s[stop] == s[word] then stop + 1 else stop)
  }

  method SkipBlanks(source: string, start: nat) returns (cursor: nat)
    requires start <= |source|
    ensures cursor == PastBlanks(source, start)
  {
    cursor := start;
    while cursor < |source| && source[cursor] in " \t"
      invariant start <= cursor <= |source| && PastBlanks(source, cursor) == PastBlanks(source, start)
    {
      cursor := cursor + 1;
    }
  }

  method SkipDelimiter(l: Letters, source: string, start: nat) returns (cursor: nat)
    requires start <= |source|
    ensures cursor == PastDelimiter(l, source, start)
  {
    cursor := start;
    while cursor < |source| && l.InDelimiter(source[cursor])
      invariant start <= cursor <= |source| && PastDelimiter(l, source, cursor) == PastDelimiter(l, source, start)
    {
      cursor := cursor + 1;
    }
  }

  /** `_note_heredoc`: what comes due at the next newline, and where the line goes on. */
  method NoteHeredoc(l: Letters, source: string, index: nat, pending: seq<Heredoc>)
    returns (cursor: nat, nowPending: seq<Heredoc>)
    requires index + 2 <= |source|
    ensures cursor == Announced(l, source, index).1
    ensures match Announced(l, source, index).0
            case None => nowPending == pending
            case Some(h) => nowPending == pending + [h]
  {
    cursor := index + 2;
    var stripTabs := false;
    if cursor < |source| && source[cursor] == '-' {
      stripTabs := true;
      cursor := cursor + 1;
    }
    cursor := SkipBlanks(source, cursor);
    var quote := None;
    if cursor < |source| && source[cursor] in "'\"" {
      quote := Some(source[cursor]);
      cursor := cursor + 1;
    }
    var start := cursor;
    cursor := SkipDelimiter(l, source, cursor);
    var delimiter := source[start..cursor];
    if quote.Some? && cursor < |source| && source[cursor] == quote.value {
      cursor := cursor + 1;
    }
    nowPending := if delimiter != "" then pending + [Heredoc(delimiter, stripTabs)] else pending;
  }
}
