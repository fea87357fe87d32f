/** Valve KeyValues text: `_parse_vdf` and `_read_quoted`, and the printer they undo. */
module Vdf {
  import opened Options
  import opened Text

  datatype Value = Leaf(text: string) | Section(entries: Entries)

  type Entries = map<string, Value>

  /** A section left open while a child is read, and the key the child goes under. */
  datatype Open = Open(entries: Entries, key: string)

  /** Where the parser stands: the innermost open section, those it lies in, and a key still without its value. */
  datatype Place = Place(around: seq<Open>, here: Entries, pending: Option<string>) {
    /** A token is a key, or the value of the key before it. */
    function Take(token: string): Place
    {
      match pending
      case None => this.(pending := Some(token))
      case Some(key) => this.(here := here[key := Leaf(token)], pending := None)
    }

    /** A section opens under the key before it, or under none. */
    function Enter(): Place { Place(around + [Open(here, KeyOr(pending))], map[], None) }

    /** The innermost section ends. The root has no end. */
    function Leave(): Place
    {
      if around == [] then this
      else
        var o := around[|around| - 1];
        Place(around[..|around| - 1], o.entries[o.key := Section(here)], pending)
    }

    /** Every open section put under its key in the one around it. */
    function Root(): Entries
      decreases |around|
    {
      if around == [] then here else Leave().Root()
    }
  }

  /** `pending_key or ""` */
  function KeyOr(pending: Option<string>): string
  {
    match pending
    case None => ""
    case Some(key) => key
  }

  const START := Place([], map[], None)

  // ---- what the parser computes, on what is left of the text -----------------------------------

  /** `_read_quoted`: the token, and how much text it takes up. */
  function Quoted(s: string): (t: (string, nat))
    ensures t.1 <= |s|
  {
    if s == "" then ("", 0)
    else if s[0] == '\\' && |s| > 1 then var (token, k) := Quoted(s[2..]); ([s[1]] + token, 2 + k)
    else if s[0] == '"' then ("", 1)
    else var (token, k) := Quoted(s[1..]); ([s[0]] + token, 1 + k)
  }

  /** A backslash stands for the character behind it, whatever that is, and is itself no part of the token. */
  lemma EscapeStands(c: char, rest: string)
    ensures Quoted("\\" + [c] + rest) == ([c] + Quoted(rest).0, 2 + Quoted(rest).1)
  {
    assert ("\\" + [c] + rest)[2..] == rest;
  }

  /** `_parse_vdf` */
  function Scan(s: string, p: Place): Entries
    decreases |s|
  {
    if s == "" then p.Root()
    else if s[0] == '"' then var (token, k) := Quoted(s[1..]); Scan(s[1 + k..], p.Take(token))
    else if s[0] == '{' then Scan(s[1..], p.Enter())
    else if s[0] == '}' then Scan(s[1..], p.Leave())
    else if "//" <= s then
      match FindChar(s, '\n')
      case None => p.Root()
      case Some(k) => Scan(s[k + 1..], p)
    else Scan(s[1..], p)
  }

  // ---- the parser -----------------------------------------------------------------------------

  /** `_read_quoted` */
  method ReadQuoted(text: string, start: nat) returns (token: string, next: nat)
    requires start <= |text|
    ensures (token, next - start) == Quoted(text[start..]) && start <= next <= |text|
  {
    token := "";
    var i := start;
    while i < |text|
      invariant start <= i <= |text|
      invariant Quoted(text[start..]).0 == token + Quoted(text[i..]).0
      invariant Quoted(text[start..]).1 == i - start + Quoted(text[i..]).1
    {
      QuotedStep(text, i, token);
      if text[i] == '\\' && i + 1 < |text| {
        token := token + [text[i + 1]];
        i := i + 2;
      } else if text[i] == '"' {
        assert token + "" == token;
        return token, i + 1;
      } else {
        token := token + [text[i]];
        i := i + 1;
      }
    }
    assert text[i..] == "" && token + "" == token;
    return token, i;
  }

  lemma QuotedStep(text: string, i: nat, token: string)
    requires i < |text|
    ensures var n := if text[i] == '\\' && i + 1 < |text| then 2 else 1;
            var (rest, k) := Quoted(text[i + n..]);
            if text[i] == '"' then Quoted(text[i..]) == ("", 1)
            else
              Quoted(text[i..]).1 == n + k && token + Quoted(text[i..]).0 == token + [text[i + n - 1]] + rest
  {
    var rest := text[i..];
    assert (i + 1 < |text| ==> rest[2..] == text[i + 2..] && rest[1] == text[i + 1]) && rest[1..] == text[i + 1..];
    if rest[0] == '\\' && |rest| > 1 {
      EscapeQuoted(rest);
      assert token + ([rest[1]] + Quoted(rest[2..]).0) == token + [rest[1]] + Quoted(rest[2..]).0;
    } else if rest[0] != '"' {
      assert token + ([rest[0]] + Quoted(rest[1..]).0) == token + [rest[0]] + Quoted(rest[1..]).0;
    }
  }

  lemma EscapeQuoted(s: string)
    requires |s| > 1 && s[0] == '\\'
    ensures Quoted(s) == ([s[1]] + Quoted(s[2..]).0, 2 + Quoted(s[2..]).1)
  {
  }

  method TakeToken(text: string, i: nat, p: Place) returns (next: nat, q: Place)
    requires i < |text| && text[i] == '"'
    ensures i < next <= |text| && Scan(text[next..], q) == Scan(text[i..], p)
  {
    var token: string;
    token, next := ReadQuoted(text, i + 1);
    ghost var rest := text[i..];
    assert rest[1..] == text[i + 1..] && rest[next - i..] == text[next..];
    TokenScanned(rest, token, next - i - 1, p);
    if p.pending.None? {
      q := p.(pending := Some(token));
    } else {
      q := p.(here := p.here[p.pending.value := Leaf(token)], pending := None);
    }
  }

  lemma CommentPassed(text: string, i: nat, p: Place)
    requires i < |text| && "//" <= text[i..]
    ensures match FindChar(text[i..], '\n')
            case None => Scan(text[i..], p) == p.Root()
            case Some(k) => Scan(text[i..], p) == Scan(text[i + k + 1..], p)
  {
    var newline := FindChar(text[i..], '\n');
    if newline.Some? {
      assert text[i..][newline.value + 1..] == text[i + newline.value + 1..];
      CommentScanned(text[i..], newline.value, p);
    }
  }

  lemma CharPassed(text: string, i: nat, p: Place)
    requires i < |text| && text[i] != '"' && !("//" <= text[i..])
    ensures var q := if text[i] == '{' then p.Enter() else if text[i] == '}' then p.Leave() else p;
            Scan(text[i..], p) == Scan(text[i + 1..], q)
  {
    assert text[i..][1..] == text[i + 1..];
  }

  /** `_parse_vdf`. The root is never left: it is `here` whenever `around` is empty. */
  method ParseVdf(text: string) returns (root: Entries)
    ensures root == Scan(text, START)
  {
    var p := START;
    var i := 0;
    assert text[0..] == text;
    while i < |text|
      invariant i <= |text|
      invariant Scan(text[i..], p) == Scan(text, START)
    {
      if text[i] == '"' {
        i, p := TakeToken(text, i, p);
      } else if "//" <= text[i..] {
        var newline := FindChar(text[i..], '\n');
        CommentPassed(text, i, p);
        if newline.None? { return p.Root(); }
        i := i + newline.value + 1;
      } else {
        CharPassed(text, i, p);
        if text[i] == '{' {
          p := Place(p.around + [Open(p.here, KeyOr(p.pending))], map[], None);
        } else if text[i] == '}' && |p.around| > 0 {
          var o := p.around[|p.around| - 1];
          p := Place(p.around[..|p.around| - 1], o.entries[o.key := Section(p.here)], p.pending);
        }
        i := i + 1;
      }
    }
    root := p.Root();
  }

  // ---- the printer ------------------------------------------------------------------------------

  /** One entry as a file spells it: `lead` stands before its key, `mid` behind it, `tail` before a closing brace. */
  datatype Item =
    | Field(lead: string, key: string, mid: string, value: string)
    | Block(lead: string, key: string, mid: string, items: seq<Item>, tail: string)

  function Escaped(s: string): string
  {
    if s == "" then "" else (if s[0] == '"' || s[0] == '\\' then ['\\', s[0]] else [s[0]]) + Escaped(s[1..])
  }

  function Quote(s: string): string { "\"" + Escaped(s) + "\"" }

  /** The text that spells an item, with `rest` behind it. */
  function ShowItem(item: Item, rest: string): string
    decreases item, 0
  {
    item.lead + (Quote(item.key) + (item.mid +
    match item
    case Field(_, _, _, value) => Quote(value) + rest
    case Block(_, _, _, items, tail) => "{" + Show(items, tail + ("}" + rest))))
  }

  function Show(items: seq<Item>, rest: string): string
    decreases items, 1
  {
    if items == [] then rest else ShowItem(items[0], Show(items[1..], rest))
  }

  /** Text that says nothing: no quote and no brace outside a comment, and every comment's line ends. */
  predicate Gap(s: string)
    decreases |s|
  {
    s == "" ||
    if "//" <= s then var k := FindChar(s, '\n'); k.Some? && Gap(s[k.value + 1..])
    else s[0] !in "\"{}" && Gap(s[1..])
  }

  predicate Spaced(item: Item)
    decreases item, 0
  {
    Gap(item.lead) && Gap(item.mid) && (item.Block? ==> AllSpaced(item.items) && Gap(item.tail))
  }

  predicate AllSpaced(items: seq<Item>)
    decreases items, 1
  {
    items == [] || (Spaced(items[0]) && AllSpaced(items[1..]))
  }

  /** What a list of entries says, added to `known`: of two under one key the later counts. */
  function Meant(items: seq<Item>, known: Entries): Entries
    decreases items, 1
  {
    if items == [] then known else Meant(items[1..], known[items[0].key := MeantBy(items[0])])
  }

  function MeantBy(item: Item): Value
    decreases item, 0
  {
    match item
    case Field(_, _, _, value) => Leaf(value)
    case Block(_, _, _, items, _) => Section(Meant(items, map[]))
  }

  // ---- parsing what was printed -------------------------------------------------------------------

  lemma {:induction false} QuotedBack(s: string, rest: string)
    ensures Quoted(Escaped(s) + "\"" + rest) == (s, |Escaped(s)| + 1)
  {
    var u := Escaped(s) + "\"" + rest;
    if s == "" {
      assert u == "\"" + rest;
    } else {
      var tail := Escaped(s[1..]) + "\"" + rest;
      QuotedBack(s[1..], rest);
      EscapedFirst(s, rest);
      assert s == [s[0]] + s[1..];
    }
  }

  lemma EscapedFirst(s: string, rest: string)
    requires s != ""
    ensures var u, tail := Escaped(s) + "\"" + rest, Escaped(s[1..]) + "\"" + rest;
            if s[0] == '"' || s[0] == '\\' then u[0] == '\\' && u[1] == s[0] && u[2..] == tail
            else u[0] == s[0] && u[1..] == tail
  {
    HeadApart(if s[0] == '"' || s[0] == '\\' then ['\\', s[0]] else [s[0]], Escaped(s[1..]), "\"", rest);
  }

  lemma HeadApart(head: string, a: string, b: string, c: string)
    ensures (head + a) + b + c == head + (a + b + c)
    ensures (head + (a + b + c))[|head|..] == a + b + c
  {
  }

  lemma TokenBack(token: string, rest: string, p: Place)
    ensures Scan(Quote(token) + rest, p) == Scan(rest, p.Take(token))
  {
    var s := Quote(token) + rest;
    assert s[1..] == Escaped(token) + "\"" + rest;
    QuotedBack(token, rest);
    assert s[1 + (|Escaped(token)| + 1)..] == rest;
    TokenScanned(s, token, |Escaped(token)| + 1, p);
  }

  lemma TokenScanned(s: string, token: string, k: nat, p: Place)
    requires s != "" && s[0] == '"' && Quoted(s[1..]) == (token, k)
    ensures Scan(s, p) == Scan(s[1 + k..], p.Take(token))
  {
  }

  lemma PlainScanned(s: string, p: Place)
    requires s != "" && s[0] !in "\"{}" && !("//" <= s)
    ensures Scan(s, p) == Scan(s[1..], p)
  {
  }

  lemma CommentScanned(s: string, k: nat, p: Place)
    requires "//" <= s && FindChar(s, '\n') == Some(k)
    ensures Scan(s, p) == Scan(s[k + 1..], p)
  {
  }

  /** A gap is read over, unless it meets a slash that makes a comment of its end. */
  lemma {:induction false} GapSkipped(gap: string, rest: string, p: Place)
    requires Gap(gap) && (rest == "" || rest[0] != '/')
    ensures Scan(gap + rest, p) == Scan(rest, p)
    decreases |gap|
  {
    var s := gap + rest;
    if gap == "" {
      assert s == rest;
    } else if "//" <= gap {
      var k := FindChar(gap, '\n').value;
      FoundFirst(gap, rest, '\n');
      assert s[k + 1..] == gap[k + 1..] + rest;
      CommentScanned(s, k, p);
      GapSkipped(gap[k + 1..], rest, p);
    } else {
      assert s[1..] == gap[1..] + rest;
      assert !("//" <= s) by {
        if |gap| > 1 { assert gap[..2] == s[..2]; } else { assert |s| > 1 ==> s[1] == rest[0]; }
      }
      PlainScanned(s, p);
      GapSkipped(gap[1..], rest, p);
    }
  }

  lemma {:induction false} FoundFirst(s: string, rest: string, c: char)
    requires FindChar(s, c).Some?
    ensures FindChar(s + rest, c) == FindChar(s, c)
  {
    if s[0] != c {
      assert (s + rest)[1..] == s[1..] + rest;
      FoundFirst(s[1..], rest, c);
    }
  }

  lemma {:induction false} ItemBack(item: Item, rest: string, p: Place)
    requires Spaced(item) && p.pending == None
    ensures Scan(ShowItem(item, rest), p) == Scan(rest, p.(here := p.here[item.key := MeantBy(item)]))
    decreases item, 0
  {
    match item
    case Field(lead, key, mid, value) =>
      KeyBack(lead, key, mid, Quote(value) + rest, p);
      TokenBack(value, rest, p.Take(key));
    case Block(lead, key, mid, items, tail) =>
      KeyBack(lead, key, mid, "{" + Show(items, tail + ("}" + rest)), p);
      BlockBack(key, items, tail, rest, p);
  }

  /** A key and the gaps about it, whatever follows. */
  lemma KeyBack(lead: string, key: string, mid: string, rest: string, p: Place)
    requires Gap(lead) && Gap(mid) && rest != "" && rest[0] != '/'
    ensures Scan(lead + (Quote(key) + (mid + rest)), p) == Scan(rest, p.Take(key))
  {
    GapSkipped(lead, Quote(key) + (mid + rest), p);
    TokenBack(key, mid + rest, p);
    GapSkipped(mid, rest, p.Take(key));
  }

  lemma {:induction false} BlockBack(key: string, items: seq<Item>, tail: string, rest: string, p: Place)
    requires AllSpaced(items) && Gap(tail) && p.pending == None
    ensures Scan("{" + Show(items, tail + ("}" + rest)), p.Take(key)) ==
            Scan(rest, p.(here := p.here[key := Section(Meant(items, map[]))]))
    decreases items, 2
  {
    var ending, deeper := tail + ("}" + rest), p.Take(key).Enter();
    assert ("{" + Show(items, ending))[1..] == Show(items, ending);
    ItemsBack(items, ending, deeper);
    var done := deeper.(here := Meant(items, map[]));
    GapSkipped(tail, "}" + rest, done);
    assert ("}" + rest)[1..] == rest && deeper.around[..|deeper.around| - 1] == p.around;
    assert done.Leave() == p.(here := p.here[key := Section(done.here)]);
  }

  lemma {:induction false} ItemsBack(items: seq<Item>, rest: string, p: Place)
    requires AllSpaced(items) && p.pending == None
    ensures Scan(Show(items, rest), p) == Scan(rest, p.(here := Meant(items, p.here)))
    decreases items, 1
  {
    if items != [] {
      ItemBack(items[0], Show(items[1..], rest), p);
      ItemsBack(items[1..], rest, p.(here := p.here[items[0].key := MeantBy(items[0])]));
    }
  }

  /** Parsing a printed file gives back what its entries say, with any gaps between the tokens. */
  lemma RoundTrip(items: seq<Item>, tail: string)
    requires AllSpaced(items) && Gap(tail)
    ensures Scan(Show(items, tail), START) == Meant(items, map[])
  {
    ItemsBack(items, tail, START);
    GapSkipped(tail, "", START.(here := Meant(items, map[])));
    assert tail + "" == tail;
  }

  // ---- what a list of entries says -------------------------------------------------------------------

  /** A key not listed keeps what was known of it. */
  lemma {:induction false} MeantElse(items: seq<Item>, known: Entries, key: string)
    requires forall i :: 0 <= i < |items| ==> items[i].key != key
    ensures key in Meant(items, known) <==> key in known
    ensures key in known ==> Meant(items, known)[key] == known[key]
  {
    if items != [] {
      MeantElse(items[1..], known[items[0].key := MeantBy(items[0])], key);
    }
  }

  /** Of the entries under one key the last counts. */
  lemma {:induction false} LastCounts(items: seq<Item>, known: Entries, i: nat)
    requires i < |items| && forall j :: i < j < |items| ==> items[j].key != items[i].key
    ensures items[i].key in Meant(items, known) && Meant(items, known)[items[i].key] == MeantBy(items[i])
  {
    var next := known[items[0].key := MeantBy(items[0])];
    if i == 0 {
      assert forall j :: 0 <= j < |items| - 1 ==> items[1..][j] == items[j + 1];
      MeantElse(items[1..], next, items[0].key);
    } else {
      LastCounts(items[1..], next, i - 1);
    }
  }

  // ---- every nested map has a text ---------------------------------------------------------------------

  /** The entries spell the map: each key once, with its value. */
  ghost predicate Spells(items: seq<Item>, entries: Entries)
    decreases items, 1
  {
    (forall i, j :: 0 <= i < j < |items| ==> items[i].key != items[j].key) &&
    (forall key <- entries :: exists i :: 0 <= i < |items| && items[i].key == key) &&
    forall i :: 0 <= i < |items| ==> items[i].key in entries && SpellsOne(items[i], entries[items[i].key])
  }

  ghost predicate SpellsOne(item: Item, value: Value)
    decreases item, 0
  {
    match item
    case Field(_, _, _, text) => value == Leaf(text)
    case Block(_, _, _, items, _) => value.Section? && Spells(items, value.entries)
  }

  lemma {:induction false} SpelledIsMeant(items: seq<Item>, entries: Entries)
    requires Spells(items, entries)
    ensures Meant(items, map[]) == entries
    decreases items, 1
  {
    var meant := Meant(items, map[]);
    forall i | 0 <= i < |items| ensures items[i].key in meant && meant[items[i].key] == entries[items[i].key] {
      LastCounts(items, map[], i);
      SpelledOneIsMeant(items[i], entries[items[i].key]);
    }
    forall key | key in meant ensures key in entries {
      if key !in entries { MeantElse(items, map[], key); }
    }
  }

  lemma {:induction false} SpelledOneIsMeant(item: Item, value: Value)
    requires SpellsOne(item, value)
    ensures MeantBy(item) == value
    decreases item, 0
  {
    if item.Block? { SpelledIsMeant(item.items, value.entries); }
  }

  lemma {:induction false} Spell(value: Value) returns (items: seq<Item>)
    requires value.Section?
    ensures AllSpaced(items) && Spells(items, value.entries)
    decreases value
  {
    items := [];
    var rest := value.entries.Keys;
    while rest != {}
      invariant rest <= value.entries.Keys && AllSpaced(items)
      invariant forall i :: 0 <= i < |items| ==> items[i].key in value.entries.Keys - rest
      invariant Spells(items, value.entries - rest)
    {
      var key :| key in rest;
      var inner := [];
      if value.entries[key].Section? { inner := Spell(value.entries[key]); }
      var item := if value.entries[key].Leaf? then Field("", key, " ", value.entries[key].text)
                  else Block("", key, " ", inner, "");
      assert Spaced(item) && SpellsOne(item, value.entries[key]);
      SpelledNext(items, item, value.entries - rest, value.entries - (rest - {key}));
      items, rest := [item] + items, rest - {key};
    }
    assert value.entries - {} == value.entries;
  }

  lemma SpelledNext(items: seq<Item>, item: Item, before: Entries, after: Entries)
    requires Spells(items, before) && item.key !in before && item.key in after && SpellsOne(item, after[item.key])
    requires after == before[item.key := after[item.key]]
    ensures Spells([item] + items, after)
  {
    var more := [item] + items;
    forall i | 0 <= i < |more| ensures more[i].key in after && SpellsOne(more[i], after[more[i].key]) {
      assert i > 0 ==> more[i] == items[i - 1];
    }
    KeysNext(items, item, before, after);
  }

  lemma KeysNext(items: seq<Item>, item: Item, before: Entries, after: Entries)
    requires forall key <- before :: exists i :: 0 <= i < |items| && items[i].key == key
    requires after.Keys == before.Keys + {item.key}
    ensures forall key <- after :: exists i :: 0 <= i < |[item] + items| && ([item] + items)[i].key == key
  {
    var more := [item] + items;
    forall key | key in after ensures exists i :: 0 <= i < |more| && more[i].key == key {
      if key == item.key {
        assert more[0].key == key;
      } else {
        var i :| 0 <= i < |items| && items[i].key == key;
        assert more[i + 1].key == key;
      }
    }
  }

  /** Every nested map has a text, and any text that spells it parses to it. */
  lemma PrintedMapBack(entries: Entries)
    ensures exists items :: AllSpaced(items) && Spells(items, entries)
    ensures forall items, tail :: AllSpaced(items) && Spells(items, entries) && Gap(tail) ==>
                                    Scan(Show(items, tail), START) == entries
  {
    var _ := Spell(Section(entries));
    forall items, tail | AllSpaced(items) && Spells(items, entries) && Gap(tail)
      ensures Scan(Show(items, tail), START) == entries
    {
      RoundTrip(items, tail);
      SpelledIsMeant(items, entries);
    }
  }

  // ---- any text at all --------------------------------------------------------------------------------

  /** The keys the root has so far. */
  function RootKeys(p: Place): set<string>
  {
    if p.around == [] then p.here.Keys else p.around[0].entries.Keys + {p.around[0].key}
  }

  /** The root is never popped: no closing brace and no other text takes away a key the root has. */
  lemma {:induction false} RootStays(s: string, p: Place)
    ensures RootKeys(p) <= Scan(s, p).Keys
    decreases |s|
  {
    if s == "" || ("//" <= s && FindChar(s, '\n').None?) {
      RootHasKeys(p);
    } else if s[0] == '"' {
      var (token, k) := Quoted(s[1..]);
      RootStays(s[1 + k..], p.Take(token));
    } else if s[0] == '{' {
      RootStays(s[1..], p.Enter());
    } else if s[0] == '}' {
      RootStays(s[1..], p.Leave());
    } else if "//" <= s {
      RootStays(s[FindChar(s, '\n').value + 1..], p);
    } else {
      RootStays(s[1..], p);
    }
  }

  lemma {:induction false} RootHasKeys(p: Place)
    ensures RootKeys(p) <= p.Root().Keys
    decreases |p.around|
  {
    if p.around != [] { RootHasKeys(p.Leave()); }
  }
}
