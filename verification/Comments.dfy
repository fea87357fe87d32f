/** TypeScript string literals and comments, as the endpoint gate skips the one and strips the other. */
module Comments {
  import opened Options
  import opened Text

  predicate IsQuote(c: char) { c == '"' || c == '\'' || c == '`' }

  /** `_skip_string` from inside a literal: just past its closing quote, or the end of the text. */
  function SkipFrom(text: string, i: nat, quote: char): (k: nat)
    requires i <= |text| + 1
    ensures k <= |text| && (i <= |text| ==> i <= k)
    decreases |text| + 1 - i
  {
    if i >= |text| then |text|
    else if text[i] == '\\' then SkipFrom(text, i + 2, quote)
    else if text[i] == quote then i + 1
    else SkipFrom(text, i + 1, quote)
  }

  /** The length of the literal a text opens with. */
  function LiteralEnd(s: string): (k: nat)
    requires s != ""
    ensures 1 <= k <= |s|
  {
    SkipFrom(s, 1, s[0])
  }

  /** `_skip_string` */
  method SkipString(text: string, start: nat) returns (end: nat)
    requires start < |text|
    ensures end == start + LiteralEnd(text[start..])
  {
    var quote := text[start];
    var i := start + 1;
    SkipShift(text, start, 1, quote);
    while i < |text|
      invariant i <= |text| + 1
      invariant SkipFrom(text, i, quote) == SkipFrom(text, start + 1, quote)
    {
      if text[i] == '\\' {
        i := i + 2;
      } else if text[i] == quote {
        return i + 1;
      } else {
        i := i + 1;
      }
    }
    return |text|;
  }

  lemma {:induction false} SkipShift(text: string, start: nat, i: nat, quote: char)
    requires start <= |text| && i <= |text| - start + 1
    ensures SkipFrom(text, start + i, quote) == start + SkipFrom(text[start..], i, quote)
    decreases |text| + 1 - i
  {
    if start + i < |text| {
      if text[start + i] == '\\' {
        SkipShift(text, start, i + 2, quote);
      } else if text[start + i] != quote {
        SkipShift(text, start, i + 1, quote);
      }
    }
  }

  /** A literal that ends before its text does is one whatever follows it. */
  lemma {:induction false} SkipIsLocal(s: string, i: nat, quote: char, u: string)
    requires i <= |s| && SkipFrom(s, i, quote) < |s|
    requires s[..SkipFrom(s, i, quote)] <= u
    ensures SkipFrom(u, i, quote) == SkipFrom(s, i, quote)
    decreases |s| - i
  {
    var k := SkipFrom(s, i, quote);
    assert i < k && s[i] == s[..k][i] == u[i];
    if s[i] == '\\' {
      SkipIsLocal(s, i + 2, quote, u);
    } else if s[i] != quote {
      SkipIsLocal(s, i + 1, quote, u);
    }
  }

  /** `text.find("*" "/")` */
  function FindClose(s: string): (k: Option<nat>)
    ensures k.Some? ==> k.value + 2 <= |s|
  {
    if |s| < 2 then None
    else if s[0] == '*' && s[1] == '/' then Some(0)
    else
      match FindClose(s[1..])
      case None => None
      case Some(k) => Some(k + 1)
  }

  predicate OpensLine(s: string) { |s| > 1 && s[0] == '/' && s[1] == '/' }

  predicate OpensBlock(s: string) { |s| > 1 && s[0] == '/' && s[1] == '*' }

  /** What the scan emits next, and how much text that stands for. */
  function Token(s: string): (t: (string, nat))
    requires s != ""
    ensures 1 <= t.1 <= |s|
  {
    if IsQuote(s[0]) then (s[..LiteralEnd(s)], LiteralEnd(s))
    else if OpensLine(s) then
      match FindChar(s[2..], '\n')
      case None => (" ", |s|)
      case Some(k) => (" \n", 2 + k + 1)
    else if OpensBlock(s) then
      match FindClose(s[2..])
      case None => (" ", |s|)
      case Some(k) => (" ", 2 + k + 2)
    else (s[..1], 1)
  }

  /** What `_strip_comments` makes of a text. */
  function Stripped(s: string): string
    decreases |s|
  {
    if s == "" then "" else Token(s).0 + Stripped(s[Token(s).1..])
  }

  /** The string and template literals the same scan meets, in order. */
  ghost function Literals(s: string): seq<string>
    decreases |s|
  {
    if s == "" then []
    else (if IsQuote(s[0]) then [Token(s).0] else []) + Literals(s[Token(s).1..])
  }

  /** `_strip_comments` */
  method StripComments(text: string) returns (out: string)
    ensures out == Stripped(text)
  {
    out := "";
    var i := 0;
    assert text[0..] == text;
    while i < |text|
      invariant i <= |text| && out + Stripped(text[i..]) == Stripped(text)
    {
      var piece, end := NextPiece(text, i);
      StrippedOn(text, out, i, piece, end);
      out, i := out + piece, end;
    }
    assert text[i..] == "";
  }

  lemma StrippedOn(text: string, out: string, i: nat, piece: string, end: nat)
    requires i < end <= |text| && (piece, end - i) == Token(text[i..])
    ensures (out + piece) + Stripped(text[end..]) == out + Stripped(text[i..])
  {
    var s := text[i..];
    assert s[end - i..] == text[end..];
    StrippedStep(s);
    assert out + (piece + Stripped(text[end..])) == (out + piece) + Stripped(text[end..]);
  }

  lemma StrippedStep(s: string)
    requires s != ""
    ensures Stripped(s) == Token(s).0 + Stripped(s[Token(s).1..])
  {
  }

  /** One round of the scan: what to append, and where to go on. */
  method NextPiece(text: string, i: nat) returns (piece: string, end: nat)
    requires i < |text|
    ensures i < end <= |text| && (piece, end - i) == Token(text[i..])
  {
    ghost var rest := text[i..];
    if IsQuote(text[i]) {
      end := SkipString(text, i);
      assert rest[..end - i] == text[i..end];
      return text[i..end], end;
    }
    if text[i] == '/' && i + 1 < |text| {
      assert rest[2..] == text[i + 2..];
      if text[i + 1] == '/' {
        var newline := FindChar(text[i + 2..], '\n');
        if newline.None? { return " ", |text|; }
        return " \n", i + 2 + newline.value + 1;
      }
      if text[i + 1] == '*' {
        var close := FindClose(text[i + 2..]);
        return " ", if close.None? then |text| else i + 2 + close.value + 2;
      }
    }
    assert rest[..1] == [text[i]];
    return [text[i]], i + 1;
  }

  // ---- stripping twice is stripping once ------------------------------------------------

  /** What is left in place of a comment opens nothing; anything else keeps its first character. */
  lemma FirstStripped(s: string)
    requires s != ""
    ensures Stripped(s) != "" && Stripped(s)[0] == if OpensLine(s) || OpensBlock(s) then ' ' else s[0]
  {
  }

  /** A character that opens neither a literal nor a comment stands for itself. */
  lemma PlainFirst(c: char, rest: string)
    requires !IsQuote(c) && (c != '/' || rest == "" || (rest[0] != '/' && rest[0] != '*'))
    ensures Stripped([c] + rest) == [c] + Stripped(rest) && Literals([c] + rest) == Literals(rest)
    ensures Remarks([c] + rest) == Remarks(rest)
  {
    assert ([c] + rest)[1..] == rest && ([c] + rest)[..1] == [c];
  }

  lemma LiteralFirst(lit: string, rest: string)
    requires lit != "" && IsQuote(lit[0]) && LiteralEnd(lit + rest) == |lit|
    ensures Stripped(lit + rest) == lit + Stripped(rest) && Literals(lit + rest) == [lit] + Literals(rest)
    ensures Remarks(lit + rest) == Remarks(rest)
  {
    assert (lit + rest)[..|lit|] == lit && (lit + rest)[|lit|..] == rest;
  }

  /** The comments the scan meets, in order. */
  ghost function Remarks(s: string): seq<string>
    decreases |s|
  {
    if s == "" then []
    else (if OpensLine(s) || OpensBlock(s) then [s[..Token(s).1]] else []) + Remarks(s[Token(s).1..])
  }

  /** `_strip_comments` leaves no comment, is idempotent, and keeps every literal its scan meets, unterminated ones
      included. */
  lemma {:induction false} StripTwice(s: string)
    ensures Stripped(Stripped(s)) == Stripped(s)
    ensures Literals(Stripped(s)) == Literals(s)
    ensures Remarks(Stripped(s)) == []
    decreases |s|
  {
    if s != "" {
      var (piece, used) := Token(s);
      StripTwice(s[used..]);
      TokenTwice(s, s[used..]);
    }
  }

  /** What a token emits is read back as that token, or as the blank left of a comment. */
  lemma TokenTwice(s: string, rest: string)
    requires s != "" && rest == s[Token(s).1..]
    ensures var piece, tail := Token(s).0, Stripped(rest);
            Stripped(piece + tail) == piece + Stripped(tail) && Remarks(piece + tail) == Remarks(tail) &&
            Literals(piece + tail) == (if IsQuote(s[0]) then [piece] else []) + Literals(tail)
  {
    if IsQuote(s[0]) {
      LiteralTwice(s, rest);
    } else if OpensLine(s) && Token(s).0 == " \n" {
      LineTwice(Stripped(rest));
    } else {
      CharTwice(s, rest);
    }
  }

  lemma LiteralTwice(s: string, rest: string)
    requires s != "" && IsQuote(s[0]) && rest == s[LiteralEnd(s)..]
    ensures var piece, tail := s[..LiteralEnd(s)], Stripped(rest);
            Stripped(piece + tail) == piece + Stripped(tail) && Remarks(piece + tail) == Remarks(tail) &&
            Literals(piece + tail) == [piece] + Literals(tail)
  {
    var piece, tail := s[..LiteralEnd(s)], Stripped(rest);
    if rest == "" {
      assert piece == s && piece + tail == s;
    } else {
      SkipIsLocal(s, 1, s[0], piece + tail);
    }
    LiteralFirst(piece, tail);
  }

  lemma LineTwice(tail: string)
    ensures Stripped(" \n" + tail) == " \n" + Stripped(tail)
    ensures Remarks(" \n" + tail) == Remarks(tail) && Literals(" \n" + tail) == Literals(tail)
  {
    assert " \n" + tail == [' '] + (['\n'] + tail);
    PlainFirst('\n', tail);
    PlainFirst(' ', ['\n'] + tail);
    assert [' '] + (['\n'] + Stripped(tail)) == " \n" + Stripped(tail);
  }

  lemma CharTwice(s: string, rest: string)
    requires s != "" && !IsQuote(s[0]) && Token(s).0 != " \n" && rest == s[Token(s).1..]
    ensures var piece, tail := Token(s).0, Stripped(rest);
            Stripped(piece + tail) == piece + Stripped(tail) && Remarks(piece + tail) == Remarks(tail) &&
            Literals(piece + tail) == Literals(tail)
  {
    var piece := Token(s).0;
    if rest != "" { FirstStripped(rest); }
    assert piece == [piece[0]];
    PlainFirst(piece[0], Stripped(rest));
  }

  // ---- where a comment ends ---------------------------------------------------------------------------

  lemma {:induction false} ClosesFirst(body: string, rest: string)
    requires forall i :: 0 <= i < |body| - 1 ==> !(body[i] == '*' && body[i + 1] == '/')
    ensures FindClose(body + ("*/" + rest)) == Some(|body|)
    decreases |body|
  {
    var s := body + ("*/" + rest);
    if body == "" {
      assert s == "*/" + rest;
    } else {
      assert s[1..] == body[1..] + ("*/" + rest);
      ClosesFirst(body[1..], rest);
      assert |body| == 1 ==> s[1] == '*';
    }
  }

  /** A block comment ends at the first asterisk and slash behind its opening, and one space stands for it. */
  lemma BlockGoes(body: string, rest: string)
    requires forall i :: 0 <= i < |body| - 1 ==> !(body[i] == '*' && body[i + 1] == '/')
    ensures Stripped("/*" + (body + ("*/" + rest))) == " " + Stripped(rest)
  {
    var s := "/*" + (body + ("*/" + rest));
    assert s[2..] == body + ("*/" + rest);
    assert FindClose(s[2..]) == Some(|body|) by { ClosesFirst(body, rest); }
    BlockTaken(s, |body|, rest);
  }

  lemma BlockTaken(s: string, k: nat, rest: string)
    requires OpensBlock(s) && FindClose(s[2..]) == Some(k) && rest == s[k + 4..]
    ensures Stripped(s) == " " + Stripped(rest)
  {
    StrippedStep(s);
  }

  /** A line comment ends at the first newline, which stays. */
  lemma LineGoes(body: string, rest: string)
    requires '\n' !in body
    ensures Stripped("//" + (body + ("\n" + rest))) == " \n" + Stripped(rest)
  {
    var s := "//" + (body + ("\n" + rest));
    assert Token(s) == (" \n", |body| + 3) by {
      assert s[2..] == body + ("\n" + rest);
      NewlineFirst(body, rest);
    }
    assert s[|body| + 3..] == rest;
    StrippedStep(s);
  }

  lemma {:induction false} NewlineFirst(body: string, rest: string)
    requires '\n' !in body
    ensures FindChar(body + ("\n" + rest), '\n') == Some(|body|)
    decreases |body|
  {
    var s := body + ("\n" + rest);
    if body == "" {
      assert s == "\n" + rest;
    } else {
      assert s[1..] == body[1..] + ("\n" + rest) && s[0] == body[0] && body[0] in body;
      NewlineFirst(body[1..], rest);
    }
  }
}
