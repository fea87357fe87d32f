/** Strings the way the source uses them: code-point order, `sorted`, `strip`, `find`, decimal numerals. */
module Text {
  import opened Options

  /** Python's `<` on two strings. */
  predicate Less(a: string, b: string)
  {
    b != "" && (a == "" || a[0] < b[0] || (a[0] == b[0] && Less(a[1..], b[1..])))
  }

  /** Up to `i` the two are equal, and there `a` ends or has the lesser code point. */
  predicate LessAt(a: string, b: string, i: nat)
  {
    i <= |a| && i < |b| && a[..i] == b[..i] && (i == |a| || a[i] < b[i])
  }

  /** Code points decide at the first place where the two differ; what ends there goes first. */
  lemma {:induction false} LessMeans(a: string, b: string)
    ensures Less(a, b) <==> exists i: nat :: LessAt(a, b, i)
  {
    if a != "" && b != "" && a[0] == b[0] {
      LessMeans(a[1..], b[1..]);
      forall i: nat ensures LessAt(a, b, i + 1) <==> LessAt(a[1..], b[1..], i) { LessAtTail(a, b, i); }
      if Less(a[1..], b[1..]) {
        var i: nat :| LessAt(a[1..], b[1..], i);
        assert LessAt(a, b, i + 1);
      } else {
        forall i: nat ensures !LessAt(a, b, i) {
          if i > 0 { assert LessAt(a, b, i - 1 + 1) <==> LessAt(a[1..], b[1..], i - 1); }
        }
      }
    } else if Less(a, b) {
      assert LessAt(a, b, 0);
    } else {
      forall i: nat ensures !LessAt(a, b, i) {
        if 0 < i <= |a| && i < |b| { assert a[..i][0] == a[0] && b[..i][0] == b[0]; }
      }
    }
  }

  lemma LessAtTail(a: string, b: string, i: nat)
    requires a != "" && b != "" && a[0] == b[0]
    ensures LessAt(a, b, i + 1) <==> LessAt(a[1..], b[1..], i)
  {
    if i + 1 <= |a| && i + 1 < |b| {
      assert a[..i + 1] == [a[0]] + a[1..][..i] && b[..i + 1] == [b[0]] + b[1..][..i];
      assert a[1..][..i] == a[..i + 1][1..] && b[1..][..i] == b[..i + 1][1..];
    }
  }

  lemma {:induction false} LessIsTotal(a: string, b: string)
    ensures Less(a, b) || a == b || Less(b, a)
  {
    if a != "" && b != "" && a[0] == b[0] {
      LessIsTotal(a[1..], b[1..]);
      assert a == [a[0]] + a[1..] && b == [b[0]] + b[1..];
    }
  }

  lemma {:induction false} LessIsStrict(a: string, b: string)
    requires Less(a, b)
    ensures a != b && !Less(b, a)
  {
    if a != "" && a[0] == b[0] {
      LessIsStrict(a[1..], b[1..]);
    }
  }

  lemma {:induction false} LessIsTransitive(a: string, b: string, c: string)
    requires Less(a, b) && Less(b, c)
    ensures Less(a, c)
  {
    if a != "" && a[0] == b[0] && b[0] == c[0] {
      LessIsTransitive(a[1..], b[1..], c[1..]);
    }
  }

  ghost predicate Ascending(names: seq<string>)
  {
    forall i, j :: 0 <= i < j < |names| ==> Less(names[i], names[j])
  }

  /** `sorted(names)` for a set of strings. */
  method Sorted(names: set<string>) returns (ordered: seq<string>)
    ensures Ascending(ordered)
    ensures forall n :: n in ordered <==> n in names
  {
    ordered := [];
    var rest := names;
    while rest != {}
      invariant rest <= names
      invariant Ascending(ordered)
      invariant forall n :: n in ordered <==> n in names - rest
    {
      var n :| n in rest;
      rest := rest - {n};
      ghost var before := ordered;
      ordered := Insert(ordered, n);
      InsertKeepsOrder(before, n);
    }
  }

  function Insert(ordered: seq<string>, n: string): seq<string>
  {
    if ordered == [] || Less(n, ordered[0]) then [n] + ordered
    else [ordered[0]] + Insert(ordered[1..], n)
  }

  lemma {:induction false} InsertKeepsOrder(ordered: seq<string>, n: string)
    requires Ascending(ordered) && n !in ordered
    ensures Ascending(Insert(ordered, n))
    ensures forall m :: m in Insert(ordered, n) <==> m == n || m in ordered
  {
    if ordered == [] {
    } else if Less(n, ordered[0]) {
      forall j | 0 < j < |ordered| ensures Less(n, ordered[j]) {
        LessIsTransitive(n, ordered[0], ordered[j]);
      }
    } else {
      LessIsTotal(n, ordered[0]);
      assert ordered == [ordered[0]] + ordered[1..];
      InsertKeepsOrder(ordered[1..], n);
      var tail := Insert(ordered[1..], n);
      forall j | 0 <= j < |tail| ensures Less(ordered[0], tail[j]) {
        assert tail[j] in tail;
      }
    }
  }

  ghost predicate Distinct<T>(items: seq<T>)
  {
    forall i, j :: 0 <= i < j < |items| ==> items[i] != items[j]
  }

  lemma AppendDistinct<T>(items: seq<T>, x: T)
    requires Distinct(items) && x !in items
    ensures Distinct(items + [x])
  {
  }

  lemma AscendingIsDistinct(names: seq<string>)
    requires Ascending(names)
    ensures Distinct(names)
  {
    forall i, j | 0 <= i < j < |names| ensures names[i] != names[j] {
      LessIsStrict(names[i], names[j]);
    }
  }

  /** `text.find(c)` */
  function FindChar(s: string, c: char): (k: Option<nat>)
    ensures k.Some? ==> k.value < |s| && s[k.value] == c
  {
    if s == "" then None
    else if s[0] == c then Some(0)
    else
      match FindChar(s[1..], c)
      case None => None
      case Some(k) => Some(k + 1)
  }

  // ---- white space -----------------------------------------------------------

  /** `str.isspace` of one character. */
  predicate IsSpace(c: char)
  {
    var n := c as int;
    9 <= n <= 13 || 28 <= n <= 32 || n == 0x85 || n == 0xA0 || n == 0x1680 || 0x2000 <= n <= 0x200A ||
    n == 0x2028 || n == 0x2029 || n == 0x202F || n == 0x205F || n == 0x3000
  }

  function LStrip(s: string): string
  {
    if s != "" && IsSpace(s[0]) then LStrip(s[1..]) else s
  }

  function RStrip(s: string): string
  {
    if s != "" && IsSpace(s[|s| - 1]) then RStrip(s[..|s| - 1]) else s
  }

  /** `str.strip` */
  function Strip(s: string): string { RStrip(LStrip(s)) }

  lemma {:induction false} LStripShortens(s: string)
    ensures |LStrip(s)| <= |s| && LStrip(s) == s[|s| - |LStrip(s)|..]
  {
    if s != "" && IsSpace(s[0]) {
      LStripShortens(s[1..]);
      var n := |LStrip(s)|;
      assert s[1..][|s| - 1 - n..] == s[|s| - n..];
    }
  }

  /** `not s.strip()` */
  predicate Blank(s: string) { s == "" || (IsSpace(s[0]) && Blank(s[1..])) }

  lemma RStripNone(s: string)
    requires s == "" || !IsSpace(s[|s| - 1])
    ensures RStrip(s) == s
  {
  }

  lemma LStripNone(s: string)
    requires s == "" || !IsSpace(s[0])
    ensures LStrip(s) == s
  {
  }

  // ---- counting by parts -------------------------------------------------------

  ghost function Total<T>(parts: seq<set<T>>, i: nat): nat
    requires i <= |parts|
  {
    if i == 0 then 0 else Total(parts, i - 1) + |parts[i - 1]|
  }

  ghost function Union<T>(parts: seq<set<T>>, i: nat): set<T>
    requires i <= |parts|
  {
    if i == 0 then {} else Union(parts, i - 1) + parts[i - 1]
  }

  lemma {:induction false} InUnion<T>(parts: seq<set<T>>, i: nat, x: T)
    requires i <= |parts|
    ensures x in Union(parts, i) <==> exists j :: 0 <= j < i && x in parts[j]
  {
    if i > 0 { InUnion(parts, i - 1, x); }
  }

  /** Disjoint parts add up. */
  lemma {:induction false} PartsAddUp<T>(parts: seq<set<T>>, i: nat)
    requires i <= |parts| && forall j, k :: 0 <= j < k < |parts| ==> parts[j] !! parts[k]
    ensures |Union(parts, i)| == Total(parts, i)
  {
    if i > 0 {
      PartsAddUp(parts, i - 1);
      var before, here := Union(parts, i - 1), parts[i - 1];
      forall x | x in before ensures x !in here {
        InUnion(parts, i - 1, x);
      }
    }
  }

  lemma {:induction false} TotalGrows<T>(parts: seq<set<T>>, i: nat)
    requires i <= |parts|
    ensures Total(parts, i) <= Total(parts, |parts|)
    decreases |parts| - i
  {
    if i < |parts| { TotalGrows(parts, i + 1); }
  }

  // ---- decimal numerals -------------------------------------------------------

  predicate IsDigit(c: char) { '0' <= c <= '9' }

  /** `str(n)`. */
  function Numeral(n: nat): (s: string)
    ensures s != "" && forall c :: c in s ==> IsDigit(c)
  {
    var last := ['0' + (n % 10) as char];
    if n < 10 then last else Numeral(n / 10) + last
  }

  /** `int(s)` for a run of digits. */
  function Value(s: string): nat
    requires forall c :: c in s ==> IsDigit(c)
  {
    if s == "" then 0
    else
      var last := s[|s| - 1];
      assert last in s && IsDigit(last);
      10 * Value(s[..|s| - 1]) + (last as int - '0' as int)
  }

  lemma {:induction false} NumeralRoundTrip(n: nat)
    ensures Value(Numeral(n)) == n
  {
    if n >= 10 {
      NumeralRoundTrip(n / 10);
      assert Numeral(n)[..|Numeral(n)| - 1] == Numeral(n / 10);
    }
  }
}
