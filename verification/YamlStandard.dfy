/** Where the loader's line folding is that of YAML 1.2, and a scalar of two lines. */
module YamlStandard {
  import opened CodeUnits
  import opened Options
  import opened YamlText
  import opened YamlReader
  import opened YamlScalars
  import opened YamlReading

  // ---- Two lines ----

  function Plains(t: Text): seq<Item> {
    if t == [] then [] else [Plain(t[0])] + Plains(t[1..])
  }

  predicate ArePlain(t: Text) {
    forall i | 0 <= i < |t| :: IsItem(Plain(t[i]))
  }

  lemma {:induction false} PlainsInFront(t: Text, items: seq<Item>)
    requires ArePlain(t) && IsScalar(items)
    ensures IsScalar(Plains(t) + items) && Sources(Plains(t) + items) == t + Sources(items)
    ensures Values(Plains(t) + items) == t + Values(items)
  {
    if t == [] {
      assert Plains(t) + items == items;
    } else {
      hide IsItem;
      PlainsInFront(t[1..], items);
      var rest := Plains(t[1..]) + items;
      FirstPlain(t, items);
      hide Plains, Sources, Values, IsScalar, ArePlain;
      InFront(Plain(t[0]), rest);
      PlainIsItself(t[0]);
      FirstUnit(t, Sources(items));
      FirstUnit(t, Values(items));
    }
  }

  lemma FirstPlain(t: Text, items: seq<Item>)
    requires t != [] && ArePlain(t)
    ensures Plains(t) + items == [Plain(t[0])] + (Plains(t[1..]) + items)
    ensures IsItem(Plain(t[0]))
  {}

  lemma FirstUnit(t: Text, u: Text)
    requires t != []
    ensures [t[0]] + (t[1..] + u) == t + u
  {}

  lemma PlainIsItself(u: CodeUnit)
    requires IsItem(Plain(u))
    ensures Source(Plain(u)) == [u] && Value(Plain(u)) == [u]
  {}

  lemma InFront(item: Item, rest: seq<Item>)
    requires IsItem(item) && IsScalar(rest)
    requires item.Fold? || item.Join? ==> Follows(item.gap, Sources(rest) + [QUOTE])
    ensures var items := [item] + rest;
            && IsScalar(items) && Sources(items) == Source(item) + Sources(rest)
            && Values(items) == Value(item) + Values(rest)
  {
    hide IsItem;
    var items := [item] + rest;
    assert items[0] == item && items[1..] == rest;
  }

  /**
    Two lines of text: a gap with one line break reads as a space, with more as one line feed less; after a
    backslash it reads as nothing.
  */
  lemma TwoLinesAreRead(input: Text, c: Cursor, x: Text, escaped: bool, gap: Text, y: Text)
    requires Terminated(input, c.position) && c.lineStart <= c.position
    requires ArePlain(x) && ArePlain(y) && IsGap(gap) && Follows(gap, y + [QUOTE])
    requires [QUOTE] + (x + ((if escaped then [BACKSLASH] else []) + gap + y)) + [QUOTE] <= input[c.position..]
    ensures var outcome := Read(input, c);
            && outcome.Some? && outcome.value.Finished?
            && outcome.value.result ==
               x + (if escaped then [] else if LineBreaks(gap) <= 1 then [32] else seq(LineBreaks(gap) - 1, _ => 10)) + y
  {
    hide Read, IsItem, LineBreaks, Sources, Values, ArePlain, IsGap, Follows, StartsDocument;
    var items := TwoLines(x, escaped, gap, y);
    ReadsExactlyScalars(input, c);
    assert ScalarAt(input, c.position, items);
  }

  lemma TwoLines(x: Text, escaped: bool, gap: Text, y: Text) returns (items: seq<Item>)
    requires ArePlain(x) && ArePlain(y) && IsGap(gap) && Follows(gap, y + [QUOTE])
    ensures IsScalar(items) && Sources(items) == x + ((if escaped then [BACKSLASH] else []) + gap + y)
    ensures Values(items) ==
            x + (if escaped then [] else if LineBreaks(gap) <= 1 then [32] else seq(LineBreaks(gap) - 1, _ => 10)) + y
  {
    hide IsItem, LineBreaks, ArePlain, IsGap, Follows, Plains, IsScalar, Sources, Values;
    var last := Line(y);
    var item := if escaped then Join(gap) else Fold(gap);
    GapIsItem(gap, escaped);
    InFront(item, last);
    PlainsInFront(x, [item] + last);
    items := Plains(x) + ([item] + last);
    assert x + (Value(item) + y) == x + Value(item) + y;
  }

  lemma Line(y: Text) returns (items: seq<Item>)
    requires ArePlain(y)
    ensures IsScalar(items) && Sources(items) == y && Values(items) == y
  {
    PlainsInFront(y, []);
    items := Plains(y) + [];
    assert y + Sources([]) == y && y + Values([]) == y;
  }

  lemma GapIsItem(gap: Text, escaped: bool)
    requires IsGap(gap)
    ensures IsItem(if escaped then Join(gap) else Fold(gap))
  {}

  // ---- The standard's folding ----

  predicate IsWhite(item: Item) {
    item.Plain? && (item.unit == ' ' as int || item.unit == '\t' as int)
  }

  predicate BeforeFold(items: seq<Item>) {
    items != [] && (items[0].Fold? || (IsWhite(items[0]) && BeforeFold(items[1..])))
  }

  /**
    What section 7.3.1 makes of the first item: white space before a line break is no content, and the empty
    lines after an escaped line break are line feeds.
  */
  function StandardOf(items: seq<Item>): Text
    requires items != [] && IsScalar(items)
  {
    if IsWhite(items[0]) && BeforeFold(items[1..]) then []
    else if items[0].Join? then
      GapBreaks(items[0].gap);
      seq(LineBreaks(items[0].gap) - 1, _ => 10)
    else Value(items[0])
  }

  function StandardValues(items: seq<Item>): Text
    requires IsScalar(items)
  {
    if items == [] then [] else StandardOf(items) + StandardValues(items[1..])
  }

  /** No white space stands right before a line break, and no empty line follows an escaped one. */
  predicate IsTidy(items: seq<Item>) {
    forall i | 0 <= i < |items| ::
      && (items[i].Fold? && i > 0 ==> !IsWhite(items[i - 1]))
      && (items[i].Join? ==> LineBreaks(items[i].gap) == 1)
  }

  /** The white space the loader keeps and the standard does not. */
  function Kept(items: seq<Item>): nat {
    if items == [] then 0
    else (if IsWhite(items[0]) && BeforeFold(items[1..]) then 1 else 0) + Kept(items[1..])
  }

  /** The line feeds the loader loses. */
  function Lost(items: seq<Item>): nat
    requires IsScalar(items)
  {
    if items == [] then 0
    else if items[0].Join? then
      GapBreaks(items[0].gap);
      LineBreaks(items[0].gap) - 1 + Lost(items[1..])
    else Lost(items[1..])
  }

  lemma {:induction false} LineFeedCount(n: nat)
    ensures multiset(seq(n, _ => 10 as CodeUnit))[10] == n
  {
    if n > 0 {
      LineFeedCount(n - 1);
      assert seq(n, _ => 10 as CodeUnit) == [10] + seq(n - 1, _ => 10 as CodeUnit);
    }
  }

  /** How much longer the loader's text of an item is than the standard's, and what line feeds it lacks. */
  lemma ItemDifference(items: seq<Item>)
    requires items != [] && IsScalar(items)
    ensures var h, rest := items[0], items[1..];
            var own := StandardOf(items);
            && |Value(h)| + Lost(items) == |own| + Kept(items) + Lost(rest) - Kept(rest)
            && multiset(Value(h))[10] + Lost(items) == multiset(own)[10] + Lost(rest)
            && (Lost(items) == Lost(rest) && Kept(items) == Kept(rest) ==> Value(h) == own)
            && Lost(items) >= Lost(rest) && Kept(items) >= Kept(rest)
  {
    hide BeforeFold, LineBreaks, Follows;
    if items[0].Join? {
      GapBreaks(items[0].gap);
      LineFeedCount(LineBreaks(items[0].gap) - 1);
    }
  }

  /** The two readings differ in length by what is kept and lost, and in line feeds by what is lost. */
  lemma {:induction false} Difference(items: seq<Item>)
    requires IsScalar(items)
    ensures |Values(items)| + Lost(items) == |StandardValues(items)| + Kept(items)
    ensures multiset(Values(items))[10] + Lost(items) == multiset(StandardValues(items))[10]
    ensures Lost(items) == 0 && Kept(items) == 0 ==> Values(items) == StandardValues(items)
  {
    if items != [] {
      Difference(items[1..]);
      ItemDifference(items);
      assert Values(items) == Value(items[0]) + Values(items[1..]);
      hide Values, StandardValues, StandardOf, Lost, Kept, Value, IsItem;
    }
  }

  lemma {:induction false} TidyIff(items: seq<Item>)
    requires IsScalar(items)
    ensures IsTidy(items) <==> Lost(items) == 0 && Kept(items) == 0
  {
    if items != [] {
      hide IsTidy;
      TidyStep(items);
      TidyIff(items[1..]);
      if items[0].Join? {
        GapBreaks(items[0].gap);
      }
    }
  }

  lemma TidyStep(items: seq<Item>)
    requires items != []
    ensures IsTidy(items) <==>
            && IsTidy(items[1..])
            && (|items| > 1 && items[1].Fold? ==> !IsWhite(items[0]))
            && (items[0].Join? ==> LineBreaks(items[0].gap) == 1)
  {
    hide IsWhite, LineBreaks;
    if IsTidy(items) {
      forall i | 0 <= i < |items| - 1
        ensures items[1..][i].Fold? && i > 0 ==> !IsWhite(items[1..][i - 1])
        ensures items[1..][i].Join? ==> LineBreaks(items[1..][i].gap) == 1
      {
        assert items[1..][i] == items[i + 1];
      }
    }
    if IsTidy(items[1..]) {
      forall i | 0 < i < |items|
        ensures items[i].Fold? && i > 1 ==> !IsWhite(items[i - 1])
        ensures items[i].Join? ==> LineBreaks(items[i].gap) == 1
      {
        assert items[1..][i - 1] == items[i];
      }
    }
  }

  /** The loader reads a scalar as the standard does exactly when it is tidy. */
  lemma FoldsAsStandardIff(items: seq<Item>)
    requires IsScalar(items)
    ensures Values(items) == StandardValues(items) <==> IsTidy(items)
  {
    Difference(items);
    TidyIff(items);
  }

  /** `"a `, a line feed, `b"`: the space before the line feed is kept. */
  lemma TrailingSpaceIsKept()
    ensures Read([34, 97, 32, 10, 98, 34, 0], Cursor(0, 0, 0, 0, -1)).Some?
    ensures Read([34, 97, 32, 10, 98, 34, 0], Cursor(0, 0, 0, 0, -1)).value.Finished?
    ensures Read([34, 97, 32, 10, 98, 34, 0], Cursor(0, 0, 0, 0, -1)).value.result == [97, 32, 32, 98]
  {
    hide Read;
    var input, x, y := [34, 97, 32, 10, 98, 34, 0], [97, 32], [98];
    assert [QUOTE] + (x + ([] + [10] + y)) + [QUOTE] <= input[0..];
    assert LineBreaks([10]) == 1;
    TwoLinesAreRead(input, Cursor(0, 0, 0, 0, -1), x, false, [10], y);
  }

  /** `"a\`, two line feeds, `b"`: the empty line is lost. */
  lemma EscapedEmptyLineIsLost()
    ensures Read([34, 97, 92, 10, 10, 98, 34, 0], Cursor(0, 0, 0, 0, -1)).Some?
    ensures Read([34, 97, 92, 10, 10, 98, 34, 0], Cursor(0, 0, 0, 0, -1)).value.Finished?
    ensures Read([34, 97, 92, 10, 10, 98, 34, 0], Cursor(0, 0, 0, 0, -1)).value.result == [97, 98]
  {
    hide Read;
    var input, x, y := [34, 97, 92, 10, 10, 98, 34, 0], [97], [98];
    assert [QUOTE] + (x + ([BACKSLASH] + [10, 10] + y)) + [QUOTE] <= input[0..];
    TwoLinesAreRead(input, Cursor(0, 0, 0, 0, -1), x, true, [10, 10], y);
  }
}
