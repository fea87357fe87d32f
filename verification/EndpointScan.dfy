/** The scanning loops of the endpoint gate, proved against what `Declarations` says they compute. */
module EndpointScan {
  import opened Options
  import opened Text
  import opened Comments
  import opened Declarations

  /** One step of a capture that is not yet over. */
  lemma CapturedStep(text: string, lt: nat, i: nat, depth: int, next: nat, deeper: int)
    requires lt <= i < |text| && next == i + StepSize(text[i..]) && deeper == depth + StepDepth(text[i..])
    requires !(StepDepth(text[i..]) == -1 && depth == 1 && text[i] == '>')
    requires Captured(text[lt..], 0) == Plus(i - lt, Captured(text[i..], depth))
    ensures next <= |text| && Captured(text[lt..], 0) == Plus(next - lt, Captured(text[next..], deeper))
  {
    var rest := text[i..];
    assert Captured(rest, depth) == Plus(StepSize(rest), Captured(text[next..], deeper)) by {
      assert rest[StepSize(rest)..] == text[next..] && rest[0] == text[i];
      StepCapturedTo(rest, depth, text[next..], deeper);
    }
    PlusPlus(i - lt, StepSize(rest), Captured(text[next..], deeper));
  }

  lemma StepCapturedTo(s: string, depth: int, rest: string, deeper: int)
    requires s != "" && rest == s[StepSize(s)..] && deeper == depth + StepDepth(s)
    requires !(StepDepth(s) == -1 && depth == 1 && s[0] == '>')
    ensures Captured(s, depth) == Plus(StepSize(s), Captured(rest, deeper))
  {
  }

  lemma PlusPlus(m: nat, n: nat, k: Option<nat>)
    ensures Plus(m, Plus(n, k)) == Plus(m + n, k)
  {
  }

  /** `_capture_generic`: the text between the brackets, and the index past the closing one. */
  method CaptureGeneric(text: string, lt: nat) returns (r: Option<(string, nat)>)
    requires lt < |text| && text[lt] == '<'
    ensures match Captured(text[lt..], 0)
            case None => r == None
            case Some(k) => 1 < k && r == Some((text[lt + 1..lt + k - 1], lt + k))
  {
    var i, depth := lt, 0;
    while i < |text|
      invariant lt <= i <= |text| && (i == lt ==> depth == 0)
      invariant Captured(text[lt..], 0) == Plus(i - lt, Captured(text[i..], depth))
    {
      ghost var from, before := i, depth;
      if IsQuote(text[i]) {
        i := SkipString(text, i);
      } else if IsArrow(text[i..]) {
        i := i + 2;
      } else {
        if IsOpener(text[i]) {
          depth := depth + 1;
        } else if IsCloser(text[i]) {
          depth := depth - 1;
          if depth == 0 && text[i] == '>' {
            return Some((text[lt + 1..i], i + 1));
          }
        }
        i := i + 1;
      }
      CapturedStep(text, lt, from, before, i, depth);
    }
    return None;
  }

  /** One step inside a part. */
  lemma PartsStepAt(text: string, i: nat, start: nat, depth: int, next: nat)
    requires start <= i < |text| && next == i + StepSize(text[i..]) && !(text[i] == ',' && depth == 0)
    ensures next <= |text|
    ensures Parts(text[i..], depth, text[start..i]) ==
            Parts(text[next..], depth + StepDepth(text[i..]), text[start..next])
  {
    var rest := text[i..];
    assert rest[StepSize(rest)..] == text[next..] && rest[0] == text[i];
    assert text[start..i] + rest[..StepSize(rest)] == text[start..next];
  }

  lemma PartCut(text: string, i: nat, part: string)
    requires i < |text| && text[i] == ','
    ensures Parts(text[i..], 0, part) == [part] + Parts(text[i + 1..], 0, "")
  {
    assert text[i..][1..] == text[i + 1..];
  }

  /** `_split_top_level` */
  method SplitTopLevel(text: string) returns (parts: seq<string>)
    ensures parts == Split(text)
  {
    if Blank(text) { return []; }
    parts := CutAtCommas(text);
    if |parts| > 1 && Blank(parts[|parts| - 1]) {
      parts := parts[..|parts| - 1];
    }
  }

  method CutAtCommas(text: string) returns (parts: seq<string>)
    ensures parts == Parts(text, 0, "")
  {
    parts := [];
    var depth, start, i := 0, 0, 0;
    ghost var whole := Parts(text, 0, "");
    assert text[0..] == text && text[0..0] == "";
    while i < |text|
      invariant 0 <= start <= i <= |text|
      invariant parts + Parts(text[i..], depth, text[start..i]) == whole
    {
      parts, i, start, depth := CutRound(text, parts, i, start, depth);
    }
    LastPart(text, parts, start, depth);
    parts := parts + [text[start..]];
  }

  lemma LastPart(text: string, parts: seq<string>, start: nat, depth: int)
    requires start <= |text|
    ensures parts + Parts(text[|text|..], depth, text[start..|text|]) == parts + [text[start..]]
  {
    assert text[|text|..] == "" && text[start..|text|] == text[start..];
  }

  /** One round of the loop. */
  method CutRound(text: string, parts: seq<string>, i: nat, start: nat, depth: int)
    returns (nowParts: seq<string>, next: nat, nowStart: nat, nowDepth: int)
    requires start <= i < |text|
    ensures nowStart <= next <= |text| && i < next
    ensures nowParts + Parts(text[next..], nowDepth, text[nowStart..next]) ==
            parts + Parts(text[i..], depth, text[start..i])
  {
    nowParts, nowStart, nowDepth := parts, start, depth;
    if IsQuote(text[i]) {
      next := SkipString(text, i);
      PartsStepAt(text, i, start, depth, next);
    } else if IsArrow(text[i..]) {
      next := i + 2;
      PartsStepAt(text, i, start, depth, next);
    } else if text[i] == ',' && depth == 0 {
      next := i + 1;
      nowParts, nowStart := parts + [text[start..i]], next;
      CutOn(text, parts, i, text[start..i]);
    } else {
      next := i + 1;
      PartsStepAt(text, i, start, depth, next);
      if IsOpener(text[i]) {
        nowDepth := depth + 1;
      } else if IsCloser(text[i]) {
        nowDepth := depth - 1;
      }
    }
  }

  lemma CutOn(text: string, parts: seq<string>, i: nat, part: string)
    requires i < |text| && text[i] == ','
    ensures (parts + [part]) + Parts(text[i + 1..], 0, text[i + 1..i + 1]) == parts + Parts(text[i..], 0, part)
  {
    PartCut(text, i, part);
    assert text[i + 1..i + 1] == "";
    assert parts + ([part] + Parts(text[i + 1..], 0, "")) == (parts + [part]) + Parts(text[i + 1..], 0, "");
  }

  /** `_args_arity` */
  method ArgsArity(fragment: string) returns (n: nat)
    ensures n == Arity(fragment)
  {
    var inner := Strip(fragment);
    if inner != "" && inner[0] == '[' && inner[|inner| - 1] == ']' {
      inner := if |inner| > 1 then inner[1..|inner| - 1] else "";
    }
    var parts := SplitTopLevel(inner);
    return |parts|;
  }

  method SkipSpaces(text: string, start: nat) returns (i: nat)
    requires start <= |text|
    ensures start <= i <= |text| && text[i..] == LStrip(text[start..])
  {
    i := start;
    while i < |text| && IsSpace(text[i])
      invariant start <= i <= |text| && LStrip(text[i..]) == LStrip(text[start..])
    {
      assert text[i..][1..] == text[i + 1..];
      i := i + 1;
    }
  }

  /** `_trailing_call_name` */
  method TrailingCallName(text: string, after: nat) returns (name: Option<string>)
    requires after <= |text|
    ensures name == CallName(text[after..])
  {
    var i := SkipSpaces(text, after);
    if i >= |text| || text[i] != '(' { return None; }
    assert text[i..][1..] == text[i + 1..];
    i := SkipSpaces(text, i + 1);
    if i >= |text| || !IsQuote(text[i]) { return None; }
    var quote := text[i];
    var end := SkipString(text, i);
    var body := if end - 1 > i then text[i + 1..end - 1] else "";
    assert end - 1 > i ==> text[i..][1..end - i - 1] == body;
    return if quote != '`' || !Interpolates(body) then Some(body) else None;
  }

  /** The character a search from `i` looks back at. */
  function Behind(text: string, i: nat): char
    requires i <= |text|
  {
    if i == 0 then ' ' else text[i - 1]
  }

  /** `_DECLARATION_NAME.search(text, i)` */
  method SearchName(text: string, start: nat) returns (at: Option<nat>)
    requires start <= |text|
    ensures match NextName(Behind(text, start), text[start..])
            case None => at == None
            case Some(k) => at == Some(start + k) && Marked(text[start + k..])
  {
    var i := start;
    while true
      invariant 0 <= start <= i <= |text|
      invariant NextName(Behind(text, start), text[start..]) == Plus(i - start, NextName(Behind(text, i), text[i..]))
      decreases |text| - i
    {
      if Marked(text[i..]) && !IsIdent(Behind(text, i)) {
        return Some(i);
      }
      if i == |text| { return None; }
      assert text[i..][1..] == text[i + 1..];
      i := i + 1;
    }
  }

  /** What follows a name, read where its `<` stands: the name called, its arity, the index past the generic. */
  method ReadGenericAt(text: string, j: nat) returns (d: Option<(string, nat, nat)>)
    requires j < |text| && text[j] == '<'
    ensures d == Further(j, ReadGeneric(text[j..]))
  {
    var captured := CaptureGeneric(text, j);
    if captured.None? { return None; }
    var (inner, end) := captured.value;
    GenericAt(text, j, inner, end);
    d := ReadDeclared(text, inner, end, j);
  }

  lemma GenericAt(text: string, j: nat, inner: string, end: nat)
    requires j + 1 < end <= |text| && text[j] == '<' && inner == text[j + 1..end - 1]
    requires Captured(text[j..], 0) == Some(end - j)
    ensures ReadGeneric(text[j..]) == Declared(Split(inner), CallName(text[end..]), end - j)
  {
    var rest := text[j..];
    assert rest[1..end - j - 1] == inner && rest[end - j..] == text[end..];
  }

  method ReadDeclared(text: string, inner: string, end: nat, j: nat) returns (d: Option<(string, nat, nat)>)
    requires j <= end <= |text|
    ensures d == Further(j, Declared(Split(inner), CallName(text[end..]), end - j))
  {
    var elements := SplitTopLevel(inner);
    if elements == [] { return None; }
    var name := TrailingCallName(text, end);
    if name.None? { return None; }
    var arity := ArgsArity(elements[0]);
    return Some((name.value, arity, end));
  }

  /** What one match comes to, in terms of the text and the index just past the marker. */
  method ReadAt(text: string, i: nat) returns (d: Option<(string, nat, nat)>)
    requires i <= |text|
    ensures d == Further(i, ReadDeclaration(text[i..]))
  {
    var j := SkipSpaces(text, i);
    FurtherOn(text, i, j);
    if j >= |text| || text[j] != '<' { return None; }
    d := ReadGenericAt(text, j);
  }

  lemma FurtherOn(text: string, i: nat, j: nat)
    requires i <= j <= |text| && text[j..] == LStrip(text[i..])
    ensures Further(i, ReadDeclaration(text[i..])) == Further(j, ReadGeneric(text[j..]))
  {
    assert |text[i..]| - |text[j..]| == j - i;
  }

  /** One match taken up: where the parse goes on, and with what. */
  method TakeUp(text: string, after: nat, known: map<string, int>) returns (i: nat, result: map<string, int>)
    requires 0 < after <= |text| && text[after - 1] == 't'
    ensures after <= i <= |text|
    ensures Parsed(Behind(text, i), text[i..], result) == ParsedAfter(text[after..], known)
  {
    var d := ReadOn(text, after, known);
    i, result := after, known;
    if d.Some? {
      var (name, arity, end) := d.value;
      i, result := end, known[name := if name in known then -1 else arity];
    }
  }

  /** What stands behind the marker, and what the parse comes to. */
  method ReadOn(text: string, after: nat, ghost known: map<string, int>) returns (d: Option<(string, nat, nat)>)
    requires 0 < after <= |text| && text[after - 1] == 't'
    ensures d.None? ==> Parsed(Behind(text, after), text[after..], known) == ParsedAfter(text[after..], known)
    ensures d.Some? ==>
              after < d.value.2 <= |text| &&
              Parsed(Behind(text, d.value.2), text[d.value.2..], Record(known, d.value.0, d.value.1)) ==
              ParsedAfter(text[after..], known)
  {
    d := ReadAt(text, after);
    DeclaredOn(text, after, d, known);
  }

  lemma DeclaredOn(text: string, after: nat, d: Option<(string, nat, nat)>, known: map<string, int>)
    requires after <= |text| && d == Further(after, ReadDeclaration(text[after..]))
    ensures d.None? ==> ParsedAfter(text[after..], known) == Parsed('t', text[after..], known)
    ensures d.Some? ==>
              after < d.value.2 <= |text| && text[d.value.2 - 1] == '>' &&
              ParsedAfter(text[after..], known) == Parsed('>', text[d.value.2..], Record(known, d.value.0, d.value.1))
  {
    if d.None? {
      ParsedOn(text[after..], known, text[after..]);
    } else {
      Ends(text[after..]);
      assert text[after..][d.value.2 - after..] == text[d.value.2..];
      ParsedOn(text[after..], known, text[d.value.2..]);
    }
  }

  lemma Ends(s: string)
    ensures ReadDeclaration(s).Some? ==>
              1 <= ReadDeclaration(s).value.2 <= |s| && s[ReadDeclaration(s).value.2 - 1] == '>'
  {
  }

  /** What the parse comes to behind a marker, `rest` being where it goes on. */
  lemma ParsedOn(s: string, known: map<string, int>, rest: string)
    requires var d := ReadDeclaration(s); rest == if d.None? then s else s[d.value.2..]
    ensures var d := ReadDeclaration(s);
            ParsedAfter(s, known) ==
            if d.None? then Parsed('t', rest, known) else Parsed('>', rest, Record(known, d.value.0, d.value.1))
  {
  }

  lemma NothingMore(text: string, i: nat, known: map<string, int>)
    requires i <= |text| && NextName(Behind(text, i), text[i..]) == None
    ensures Parsed(Behind(text, i), text[i..], known) == known
  {
  }

  lemma MarkerPassed(text: string, i: nat, after: nat, known: map<string, int>)
    requires i + 8 <= after <= |text| && Marked(text[after - 8..])
    requires NextName(Behind(text, i), text[i..]) == Some(after - 8 - i)
    ensures Parsed(Behind(text, i), text[i..], known) == ParsedAfter(text[after..], known) && text[after - 1] == 't'
  {
    assert text[i..][after - i..] == text[after..];
    assert text[after - 8..][7] == text[after - 1];
  }

  /** `_parse_text_into` */
  method ParseTextInto(text: string, known: map<string, int>) returns (result: map<string, int>)
    ensures result == Parsed(' ', text, known)
  {
    result := known;
    var i := 0;
    ghost var whole := Parsed(' ', text, known);
    assert text[0..] == text;
    while true
      invariant i <= |text| && Parsed(Behind(text, i), text[i..], result) == whole
      decreases |text| - i
    {
      var found: bool;
      i, result, found := ParseNext(text, i, result);
      if !found { return; }
    }
  }

  /** One round of the loop. */
  method ParseNext(text: string, i: nat, known: map<string, int>)
    returns (next: nat, result: map<string, int>, found: bool)
    requires i <= |text|
    ensures found ==> i < next <= |text| &&
                      Parsed(Behind(text, next), text[next..], result) == Parsed(Behind(text, i), text[i..], known)
    ensures !found ==> next == i && result == known == Parsed(Behind(text, i), text[i..], known)
  {
    var after := FindMarker(text, i, known);
    if after.None? { return i, known, false; }
    next, result := TakeUp(text, after.value, known);
    found := true;
  }

  /** The index behind the next marker. */
  method FindMarker(text: string, i: nat, ghost known: map<string, int>) returns (after: Option<nat>)
    requires i <= |text|
    ensures after.None? ==> Parsed(Behind(text, i), text[i..], known) == known
    ensures after.Some? ==>
              i + 8 <= after.value <= |text| && text[after.value - 1] == 't' &&
              Parsed(Behind(text, i), text[i..], known) == ParsedAfter(text[after.value..], known)
  {
    var at := SearchName(text, i);
    if at.None? {
      NothingMore(text, i, known);
      return None;
    }
    MarkerPassed(text, i, at.value + 8, known);
    return Some(at.value + 8);
  }
}
