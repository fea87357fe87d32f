/** Heading anchors: `_unique_slug`, `_non_fenced_lines` and `anchor_set`. */
module Anchors {
  import opened Options
  import opened Text

  // ---- numbered slugs -----------------------------------------------------------------------------

  /** `^(.*)_(\d+)$` on a slug of one line: what stands before the last underscore, if only digits follow it. */
  function Numbered(slug: string): Option<(string, nat)>
  {
    var digits := DigitsAtEnd(slug);
    var k := |slug| - |digits|;
    if digits == "" || k == 0 || slug[k - 1] != '_' then None else Some((slug[..k - 1], Value(digits)))
  }

  /** The longest run of digits a text ends in. */
  function DigitsAtEnd(s: string): (d: string)
    ensures |d| <= |s| && d == s[|s| - |d|..] && (forall c :: c in d ==> IsDigit(c))
    ensures |d| < |s| ==> !IsDigit(s[|s| - |d| - 1])
  {
    if s == "" || !IsDigit(s[|s| - 1]) then ""
    else
      var d := DigitsAtEnd(s[..|s| - 1]);
      assert s == s[..|s| - 1] + [s[|s| - 1]];
      d + [s[|s| - 1]]
  }

  function WithNumber(base: string, n: nat): string { base + "_" + Numeral(n) }

  /** The second of two equal headings, and the eleventh behind the first of ten more. */
  lemma Underscored()
    ensures WithNumber("dup", 1) == "dup_1" && WithNumber("dup", 10) == "dup_10"
  {
    assert Numeral(1) == "1";
    assert Numeral(10) == Numeral(1) + "0" == "10";
  }

  lemma {:induction false} DigitsFound(head: string, digits: string)
    requires (forall c :: c in digits ==> IsDigit(c)) && head != "" && !IsDigit(head[|head| - 1])
    ensures DigitsAtEnd(head + digits) == digits
  {
    var s := head + digits;
    if digits == "" {
      assert s == head;
    } else {
      var last := digits[|digits| - 1];
      assert last in digits && s[|s| - 1] == last;
      assert s[..|s| - 1] == head + digits[..|digits| - 1];
      DigitsFound(head, digits[..|digits| - 1]);
      assert digits == digits[..|digits| - 1] + [last];
    }
  }

  lemma NumberedBack(base: string, n: nat)
    ensures Numbered(WithNumber(base, n)) == Some((base, n))
  {
    var slug := WithNumber(base, n);
    DigitsFound(base + "_", Numeral(n));
    assert slug == (base + "_") + Numeral(n) && slug[..|base|] == base && slug[|base|] == '_';
    NumeralRoundTrip(n);
  }

  /** One round of the loop. */
  function Next(slug: string): string
  {
    match Numbered(slug)
    case Some((base, n)) => WithNumber(base, n + 1)
    case None => WithNumber(slug, 1)
  }

  // ---- the slug that is chosen -----------------------------------------------------------------------

  /** Where the numbers that are tried begin: behind the slug's own, or at one. */
  function Stem(slug: string): (string, nat)
  {
    match Numbered(slug)
    case Some((base, n)) => (base, n + 1)
    case None => (slug, 1)
  }

  predicate Taken(slug: string, used: set<string>) { slug in used || slug == "" }

  /** Every number from `first` up to `n` is taken. */
  ghost predicate Tried(used: set<string>, base: string, first: nat, n: nat)
  {
    first <= n && forall k :: first <= k < n ==> WithNumber(base, k) in used
  }

  /** The slug itself if it is free, else the first free one of the numbered slugs that follow it. */
  ghost predicate FirstFree(slug: string, used: set<string>, r: string)
  {
    r !in used &&
    if !Taken(slug, used) then r == slug
    else exists n: nat :: r == WithNumber(Stem(slug).0, n) && Tried(used, Stem(slug).0, Stem(slug).1, n)
  }

  lemma FirstFreeIsUnique(slug: string, used: set<string>, r: string, s: string)
    requires FirstFree(slug, used, r) && FirstFree(slug, used, s)
    ensures r == s
  {
    if Taken(slug, used) {
      var n: nat :| r == WithNumber(Stem(slug).0, n) && Tried(used, Stem(slug).0, Stem(slug).1, n);
      var m: nat :| s == WithNumber(Stem(slug).0, m) && Tried(used, Stem(slug).0, Stem(slug).1, m);
      assert n == m || n < m || m < n;
    }
  }

  /** The used slugs with this base and a number no smaller. */
  ghost function Ahead(used: set<string>, base: string, n: nat): set<string>
  {
    set u <- used | Numbered(u).Some? && Numbered(u).value.0 == base && Numbered(u).value.1 >= n
  }

  lemma FewerAhead(used: set<string>, slug: string, base: string, n: nat)
    requires slug in used && Numbered(slug) == Some((base, n))
    ensures |Ahead(used, base, n + 1)| < |Ahead(used, base, n)|
  {
    assert slug in Ahead(used, base, n) && slug !in Ahead(used, base, n + 1);
    assert Ahead(used, base, n + 1) <= Ahead(used, base, n) - {slug};
    Smaller(Ahead(used, base, n + 1), Ahead(used, base, n) - {slug});
  }

  lemma {:induction false} Smaller(a: set<string>, b: set<string>)
    requires a <= b
    ensures |a| <= |b|
    decreases a
  {
    if a != {} {
      var x :| x in a;
      Smaller(a - {x}, b - {x});
    }
  }

  /** The slug under trial carries number `n`, and those before it are taken. */
  ghost predicate Trial(used: set<string>, base: string, first: nat, r: string, n: nat)
  {
    r == WithNumber(base, n) && Tried(used, base, first, n)
  }

  lemma FirstTrial(slug: string, used: set<string>)
    ensures Trial(used, Stem(slug).0, Stem(slug).1, Next(slug), Stem(slug).1)
  {
  }

  lemma NextTrial(used: set<string>, base: string, first: nat, r: string, n: nat)
    requires Trial(used, base, first, r, n) && r in used
    ensures Trial(used, base, first, Next(r), n + 1)
  {
    NumberedBack(base, n);
  }

  lemma NextIsCloser(used: set<string>, base: string, first: nat, r: string, n: nat)
    requires Trial(used, base, first, r, n) && r in used
    ensures |Ahead(used, base, n + 1)| < |Ahead(used, base, n)|
  {
    NumberedBack(base, n);
    FewerAhead(used, r, base, n);
  }

  /** One round of the loop: count up, or begin to. */
  method CountUp(slug: string) returns (next: string)
    ensures next == Next(slug)
  {
    var found := Numbered(slug);
    if found.Some? {
      next := found.value.0 + "_" + Numeral(found.value.1 + 1);
    } else {
      next := slug + "_1";
      assert Numeral(1) == "1";
    }
  }

  lemma TrialIsFound(slug: string, used: set<string>, r: string, n: nat)
    requires Taken(slug, used) && Trial(used, Stem(slug).0, Stem(slug).1, r, n) && r !in used
    ensures FirstFree(slug, used, r)
  {
  }

  lemma NeverEmpty(used: set<string>, base: string, first: nat, r: string, n: nat)
    requires Trial(used, base, first, r, n)
    ensures r != ""
  {
  }

  /** The loop of `_unique_slug`. Ends whatever is used: every round after the first leaves fewer used slugs ahead. */
  method CountUntilFree(slug: string, used: set<string>, ghost base: string, ghost first: nat)
    returns (r: string, ghost n: nat)
    requires (base, first) == Stem(slug)
    ensures r !in used && r != ""
    ensures if Taken(slug, used) then Trial(used, base, first, r, n) else r == slug
  {
    r := slug;
    ghost var started, ahead := false, 0;
    n := 0;
    while r in used || r == ""
      invariant started ==> Taken(slug, used) && Trial(used, base, first, r, n) && ahead == |Ahead(used, base, n)|
      invariant !started ==> r == slug
      decreases if started then 0 else 1, ahead
    {
      if started {
        NeverEmpty(used, base, first, r, n);
        NextTrial(used, base, first, r, n);
        NextIsCloser(used, base, first, r, n);
        n := n + 1;
      } else {
        FirstTrial(slug, used);
        n, started := first, true;
      }
      ahead := |Ahead(used, base, n)|;
      r := CountUp(r);
    }
  }

  /** `_unique_slug` */
  method UniqueSlug(slug: string, used: set<string>) returns (r: string, nowUsed: set<string>)
    ensures r != "" && nowUsed == used + {r} && FirstFree(slug, used, r)
  {
    ghost var n;
    r, n := CountUntilFree(slug, used, Stem(slug).0, Stem(slug).1);
    if Taken(slug, used) { TrialIsFound(slug, used, r, n); }
    nowUsed := used + {r};
  }

  // ---- lines ---------------------------------------------------------------------------------------

  /** What the expressions find in a line: the fence it draws, the ids it claims, and the slug of the heading it is if
      that heading claims no id. */
  datatype Line = Line(fence: Option<char>, ids: seq<string>, title: Option<string>)

  /** The first line that closes a fence drawn with `c`. */
  function Closing(lines: seq<Line>, c: char): (k: Option<nat>)
    ensures match k
            case None => forall i :: 0 <= i < |lines| ==> lines[i].fence != Some(c)
            case Some(n) => n < |lines| && lines[n].fence == Some(c) &&
                            forall i :: 0 <= i < n ==> lines[i].fence != Some(c)
  {
    if lines == [] then None
    else if lines[0].fence == Some(c) then Some(0)
    else
      match Closing(lines[1..], c)
      case None => None
      case Some(k) => Some(k + 1)
  }

  /** The lines outside fences, block by block: a fence swallows everything to its closing one, or to the end. */
  function OutsideFences(lines: seq<Line>): seq<Line>
  {
    if lines == [] then []
    else if lines[0].fence.None? then [lines[0]] + OutsideFences(lines[1..])
    else
      match Closing(lines[1..], lines[0].fence.value)
      case None => []
      case Some(k) => OutsideFences(lines[1..][k + 1..])
  }

  /** What is outside fences in the lines to come, when a fence may be open. */
  function OutsideFrom(lines: seq<Line>, open: Option<char>): seq<Line>
  {
    match open
    case None => OutsideFences(lines)
    case Some(c) =>
      match Closing(lines, c)
      case None => []
      case Some(k) => OutsideFences(lines[k + 1..])
  }

  lemma FenceStep(lines: seq<Line>, i: nat, open: Option<char>)
    requires i < |lines|
    ensures var fence, rest := lines[i].fence, lines[i + 1..];
            OutsideFrom(lines[i..], open) ==
            if fence.None? then (if open.None? then [lines[i]] else []) + OutsideFrom(rest, open)
            else if open.None? then OutsideFrom(rest, fence)
            else if fence == open then OutsideFrom(rest, None)
            else OutsideFrom(rest, open)
  {
    var here := lines[i..];
    assert here[1..] == lines[i + 1..] && here[0] == lines[i];
    if open.Some? {
      var k := Closing(here[1..], open.value);
      if k.Some? { assert here[k.value + 2..] == here[1..][k.value + 1..]; }
    }
  }

  function Open(inFence: bool, c: char): Option<char> { if inFence then Some(c) else None }

  /** One round of the loop. */
  method FenceRound(lines: seq<Line>, i: nat, before: seq<Line>, inFence: bool, fenceChar: char)
    returns (result: seq<Line>, nowInFence: bool, nowFenceChar: char)
    requires i < |lines|
    ensures result + OutsideFrom(lines[i + 1..], Open(nowInFence, nowFenceChar)) ==
            before + OutsideFrom(lines[i..], Open(inFence, fenceChar))
  {
    var line := lines[i];
    result, nowInFence, nowFenceChar := before, inFence, fenceChar;
    FenceStep(lines, i, Open(inFence, fenceChar));
    if line.fence.Some? {
      if !inFence {
        nowInFence, nowFenceChar := true, line.fence.value;
      } else if line.fence.value == fenceChar {
        nowInFence := false;
      }
    } else if !inFence {
      result := result + [line];
    }
  }

  lemma NothingOutside(open: Option<char>)
    ensures OutsideFrom([], open) == []
  {
  }

  /** `_non_fenced_lines` */
  method NonFencedLines(lines: seq<Line>) returns (result: seq<Line>)
    ensures result == OutsideFences(lines)
  {
    result := [];
    var inFence, fenceChar := false, ' ';
    ghost var all := OutsideFences(lines);
    assert lines[0..] == lines;
    for i := 0 to |lines|
      invariant result + OutsideFrom(lines[i..], Open(inFence, fenceChar)) == all
    {
      result, inFence, fenceChar := FenceRound(lines, i, result, inFence, fenceChar);
    }
    NothingOutside(Open(inFence, fenceChar));
  }

  // ---- the anchors of a document ---------------------------------------------------------------------------

  function Among(items: seq<string>): set<string> { set x | x in items }

  function ExplicitIds(lines: seq<Line>): set<string>
  {
    if lines == [] then {} else Among(lines[0].ids) + ExplicitIds(lines[1..])
  }

  /** The slugs of the headings without an id of their own, in order. */
  function Titles(lines: seq<Line>): seq<string>
  {
    if lines == [] then []
    else (if lines[0].title.Some? then [lines[0].title.value] else []) + Titles(lines[1..])
  }

  /** Each title got the first slug free of the explicit ids and of what the titles before it got. */
  ghost predicate Given(explicit: set<string>, titles: seq<string>, given: seq<string>)
  {
    |given| == |titles| &&
    forall i :: 0 <= i < |given| ==> FirstFree(titles[i], explicit + Among(given[..i]), given[i])
  }

  lemma GivenNext(explicit: set<string>, titles: seq<string>, given: seq<string>, title: string, slug: string)
    requires Given(explicit, titles, given) && FirstFree(title, explicit + Among(given), slug)
    ensures Given(explicit, titles + [title], given + [slug])
    ensures Among(given + [slug]) == Among(given) + {slug}
  {
    var more := given + [slug];
    forall i | 0 <= i < |more| ensures FirstFree((titles + [title])[i], explicit + Among(more[..i]), more[i]) {
      assert more[..i] == if i < |given| then given[..i] else given;
    }
  }

  /** `anchor_set`. `given` is what each heading without an id got, in order. */
  method AnchorSet(lines: seq<Line>) returns (anchors: set<string>, ghost given: seq<string>)
    ensures var outside := OutsideFences(lines);
            ExplicitIds(outside) <= anchors && |anchors| == |ExplicitIds(outside)| + |Titles(outside)|
    ensures var outside := OutsideFences(lines);
            Given(ExplicitIds(outside), Titles(outside), given) &&
            anchors == ExplicitIds(outside) + Among(given)
  {
    var outside := NonFencedLines(lines);
    var explicit: set<string> := {};
    assert outside[0..] == outside;
    for i := 0 to |outside|
      invariant explicit + ExplicitIds(outside[i..]) == ExplicitIds(outside)
    {
      assert outside[i..][1..] == outside[i + 1..];
      explicit := explicit + Among(outside[i].ids);
    }
    anchors, given := Assign(outside, explicit);
  }

  method GiveNext(title: string, used: set<string>, ghost explicit: set<string>, ghost titles: seq<string>,
                  ghost given: seq<string>)
    returns (slug: string, nowUsed: set<string>)
    requires Given(explicit, titles, given) && used == explicit + Among(given)
    ensures Given(explicit, titles + [title], given + [slug]) && slug !in used
    ensures nowUsed == used + {slug} == explicit + Among(given + [slug])
  {
    slug, nowUsed := UniqueSlug(title, used);
    GivenNext(explicit, titles, given, title, slug);
  }

  lemma TitlesStep(lines: seq<Line>, i: nat, before: seq<string>)
    requires i < |lines|
    ensures before + Titles(lines[i..]) ==
            (if lines[i].title.Some? then before + [lines[i].title.value] else before) + Titles(lines[i + 1..])
  {
    assert lines[i..][1..] == lines[i + 1..];
  }

  /** The second pass. */
  method Assign(outside: seq<Line>, explicit: set<string>) returns (anchors: set<string>, ghost given: seq<string>)
    ensures Given(explicit, Titles(outside), given)
    ensures anchors == explicit + Among(given) && |anchors| == |explicit| + |Titles(outside)|
  {
    anchors, given := explicit, [];
    var used := explicit;
    ghost var titles: seq<string> := [];
    assert outside[0..] == outside;
    for i := 0 to |outside|
      invariant titles + Titles(outside[i..]) == Titles(outside)
      invariant Given(explicit, titles, given) && anchors == used == explicit + Among(given)
      invariant |anchors| == |explicit| + |titles|
    {
      TitlesStep(outside, i, titles);
      if outside[i].title.Some? {
        var slug;
        slug, used := GiveNext(outside[i].title.value, used, explicit, titles, given);
        anchors := anchors + {slug};
        titles, given := titles + [outside[i].title.value], given + [slug];
      }
    }
  }

  /** What headings are given is settled by the document, and no two of them, nor one and an explicit id, share it. */
  lemma {:induction false} GivenIsUnique(explicit: set<string>, titles: seq<string>, given: seq<string>,
                                         other: seq<string>)
    requires Given(explicit, titles, given) && Given(explicit, titles, other)
    ensures given == other && Distinct(given) && forall g <- given :: g !in explicit
    decreases |titles|
  {
    if titles != [] {
      var n := |titles| - 1;
      GivenBefore(explicit, titles, given);
      GivenBefore(explicit, titles, other);
      GivenIsUnique(explicit, titles[..n], given[..n], other[..n]);
      FirstFreeIsUnique(titles[n], explicit + Among(given[..n]), given[n], other[n]);
      assert given == given[..n] + [given[n]] && other == other[..n] + [other[n]];
      assert given[n] !in Among(given[..n]);
      AppendDistinct(given[..n], given[n]);
    }
  }

  lemma GivenBefore(explicit: set<string>, titles: seq<string>, given: seq<string>)
    requires titles != [] && Given(explicit, titles, given)
    ensures Given(explicit, titles[..|titles| - 1], given[..|titles| - 1])
  {
    var n := |titles| - 1;
    forall i | 0 <= i < n ensures FirstFree(titles[..n][i], explicit + Among(given[..n][..i]), given[..n][i]) {
      assert given[..n][..i] == given[..i];
    }
  }
}
