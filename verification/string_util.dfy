/** `StringUtil::fmtBuffer`: a one-line rendering of the first `len` elements
    of an array that shows at most the first `numStart` and the last `numEnd`
    of them, with an elision `... (+R elements) ...` standing for the `R`
    elements in between. How one element is written (`std::fixed` with a
    precision) is the caller-supplied function `show`. */
module StringUtil {
  import opened Text

  /** The defaults of the `numStart` and `numEnd` parameters. */
  const DefaultNumStart: int := 8
  const DefaultNumEnd: int := 4

  /** The parameters are `int64_t`. */
  predicate Int64(x: int) {
    -0x8000_0000_0000_0000 <= x < 0x8000_0000_0000_0000
  }

  function Min(a: int, b: int): int { if a <= b then a else b }
  function Max(a: int, b: int): int { if a <= b then b else a }

  /** One thing the output shows: the element at an index, or the elision. */
  datatype Item = Element(index: int) | Elision(remaining: int)

  /** The elements at `lo .. hi-1`, in order (none when `hi <= lo`). */
  function Span(lo: int, hi: int): (r: seq<Item>)
    ensures |r| == Max(0, hi - lo)
    ensures forall k :: 0 <= k < |r| ==> r[k] == Element(lo + k)
  {
    seq(Max(0, hi - lo), k => Element(lo + k))
  }

  /** The elements omitted in the middle: `len - numStart - numEnd`. */
  function Remaining(len: int, numStart: int, numEnd: int): int {
    len - numStart - numEnd
  }

  /** Nothing is printed at all for an empty array or when neither end is
      asked for. */
  predicate PrintsNothing(len: int, numStart: int, numEnd: int) {
    len == 0 || (numStart == 0 && numEnd == 0)
  }

  /** What the output shows, in order: the leading elements
      `0 .. min(numStart, len)-1`, the elision when more than `numStart +
      numEnd` elements exist, and the trailing elements from
      `max(len - numEnd, numStart)` up to `len - 1`. */
  function Items(len: int, numStart: int, numEnd: int): seq<Item> {
    if PrintsNothing(len, numStart, numEnd) then []
    else
      var r := Remaining(len, numStart, numEnd);
      Span(0, Min(numStart, len))
      + (if r > 0 then [Elision(r)] else [])
      + Span(Max(len - numEnd, numStart), len)
  }

  /** Every element shown lies in the buffer; the source reads them through a
      raw address with no bounds check, so anything else is out of bounds. */
  predicate ReadsInBounds(buffer: seq<int>, items: seq<Item>) {
    forall k :: 0 <= k < |items| && items[k].Element? ==> 0 <= items[k].index < |buffer|
  }

  /** The same requirement on the parameters: the leading elements and the
      trailing elements each lie in the buffer (`InBoundsMeansShownInBuffer`). */
  predicate InBounds(buffer: seq<int>, len: int, numStart: int, numEnd: int) {
    PrintsNothing(len, numStart, numEnd) ||
    ((Min(numStart, len) <= 0 || Min(numStart, len) <= |buffer|)
     && (Max(len - numEnd, numStart) >= len || (0 <= Max(len - numEnd, numStart) && len <= |buffer|)))
  }

  /** The separator before an item: `", "` before every element but index 0,
      and before the elision exactly when `numStart != 0`. */
  function Separator(it: Item, numStart: int): string {
    match it
    case Element(i) => if i != 0 then ", " else ""
    case Elision(_) => if numStart != 0 then ", " else ""
  }

  /** The text of one item, without its separator. An element outside the
      buffer has no text here; `FmtBuffer` never shows one. */
  function ItemText(it: Item, buffer: seq<int>, show: int -> string): string {
    match it
    case Element(i) => if 0 <= i < |buffer| then show(buffer[i]) else ""
    case Elision(r) => "... (+" + (if r >= 0 then Decimal(r) else "-" + Decimal(-r)) + " elements) ..."
  }

  /** The items written one after another, each preceded by its separator. */
  function Render(items: seq<Item>, buffer: seq<int>, show: int -> string, numStart: int): string {
    if |items| == 0 then ""
    else
      var last := items[|items| - 1];
      Render(items[..|items| - 1], buffer, show, numStart) + Separator(last, numStart) + ItemText(last, buffer, show)
  }

  /** Rendering one more item appends its separator and its text. */
  lemma RenderSnoc(items: seq<Item>, it: Item, buffer: seq<int>, show: int -> string, numStart: int)
    ensures Render(items + [it], buffer, show, numStart)
      == Render(items, buffer, show, numStart) + Separator(it, numStart) + ItemText(it, buffer, show)
  {
    assert (items + [it])[..|items|] == items;
  }

  /** One more index at the end of a span. */
  lemma SpanSnoc(lo: int, hi: int)
    requires lo <= hi
    ensures Span(lo, hi + 1) == Span(lo, hi) + [Element(hi)]
  {
  }

  /** The output in its three parts: leading elements, the elision if any,
      trailing elements. */
  lemma ItemsParts(len: int, numStart: int, numEnd: int)
    requires !PrintsNothing(len, numStart, numEnd)
    ensures Remaining(len, numStart, numEnd) > 0 ==>
      Items(len, numStart, numEnd) ==
        Span(0, Min(numStart, len)) + [Elision(Remaining(len, numStart, numEnd))] + Span(Max(len - numEnd, numStart), len)
    ensures Remaining(len, numStart, numEnd) <= 0 ==>
      Items(len, numStart, numEnd) == Span(0, Min(numStart, len)) + Span(Max(len - numEnd, numStart), len)
  {
    var all := Items(len, numStart, numEnd);
    var r := Remaining(len, numStart, numEnd);
    var lead := Span(0, Min(numStart, len));
    var mid: seq<Item> := if r > 0 then [Elision(r)] else [];
    var start := Max(len - numEnd, numStart);
    var trail := Span(start, len);
    assert all == lead + mid + trail;
    if r <= 0 {
      assert lead + mid == lead;
    }
  }

  /** Every element of a concatenation lies in the buffer iff every element
      of each part does. */
  lemma ReadsInBoundsConcat(buffer: seq<int>, a: seq<Item>, b: seq<Item>)
    ensures ReadsInBounds(buffer, a + b) <==> ReadsInBounds(buffer, a) && ReadsInBounds(buffer, b)
  {
    var ab := a + b;
    assert forall k :: 0 <= k < |a| ==> ab[k] == a[k];
    assert forall k :: 0 <= k < |b| ==> ab[|a| + k] == b[k];
  }

  /** A span lies in the buffer iff it is empty or both its ends do. */
  lemma SpanInBoundsIff(buffer: seq<int>, lo: int, hi: int)
    ensures ReadsInBounds(buffer, Span(lo, hi)) <==> hi <= lo || (0 <= lo && hi <= |buffer|)
  {
    var sp := Span(lo, hi);
    if lo < hi {
      assert sp[0] == Element(lo);
      assert sp[|sp| - 1] == Element(hi - 1);
    }
  }

  /** The numeric requirement says exactly that every element shown lies in
      the buffer. */
  lemma InBoundsMeansShownInBuffer(buffer: seq<int>, len: int, numStart: int, numEnd: int)
    ensures InBounds(buffer, len, numStart, numEnd) <==> ReadsInBounds(buffer, Items(len, numStart, numEnd))
  {
    if !PrintsNothing(len, numStart, numEnd) {
      var r := Remaining(len, numStart, numEnd);
      var lead := Span(0, Min(numStart, len));
      var mid: seq<Item> := if r > 0 then [Elision(r)] else [];
      var trail := Span(Max(len - numEnd, numStart), len);
      assert Items(len, numStart, numEnd) == lead + mid + trail;
      ReadsInBoundsConcat(buffer, lead + mid, trail);
      ReadsInBoundsConcat(buffer, lead, mid);
      SpanInBoundsIff(buffer, 0, Min(numStart, len));
      SpanInBoundsIff(buffer, Max(len - numEnd, numStart), len);
    }
  }

  /** One more element after the items written so far: `before` renders the
      items so far, `after` is `before` with the element's separator and text. */
  lemma ElementStep(head: seq<Item>, lo: int, i: int, buffer: seq<int>, show: int -> string, numStart: int,
                    before: string, after: string)
    requires lo <= i && 0 <= i < |buffer|
    requires before == Render(head + Span(lo, i), buffer, show, numStart)
    requires after == (if i != 0 then before + ", " else before) + show(buffer[i])
    ensures after == Render(head + Span(lo, i + 1), buffer, show, numStart)
  {
    SpanSnoc(lo, i);
    assert head + Span(lo, i + 1) == (head + Span(lo, i)) + [Element(i)];
    RenderSnoc(head + Span(lo, i), Element(i), buffer, show, numStart);
    if i == 0 {
      assert before + "" == before;
    }
  }

  /** Where the element loop starts: nothing written yet at `lo`, and
      nothing to write at all when `hi <= lo`. */
  lemma SpanEnds(head: seq<Item>, lo: int, i: int, hi: int)
    ensures i == lo ==> head + Span(lo, i) == head
    ensures hi <= lo ==> Span(lo, hi) == []
  {
    if i == lo {
      assert Span(lo, i) == [];
    }
  }

  /** One turn of an element loop: the separator (none before element 0),
      then the element itself. */
  method WriteElement(buffer: seq<int>, show: int -> string, numStart: int,
                      ghost head: seq<Item>, lo: int, i: int, s0: string)
    returns (s: string)
    requires lo <= i && 0 <= i < |buffer|
    requires s0 == Render(head + Span(lo, i), buffer, show, numStart)
    ensures s == Render(head + Span(lo, i + 1), buffer, show, numStart)
  {
    s := s0;
    if i != 0 { s := s + ", "; }
    s := s + show(buffer[i]);
    ElementStep(head, lo, i, buffer, show, numStart, s0, s);
  }

  /** The element loops of `fmtBuffer`: write the elements at `lo .. hi-1`,
      each after its separator, behind what `s0` already holds. */
  method WriteElements(buffer: seq<int>, show: int -> string, numStart: int,
                       ghost head: seq<Item>, s0: string, lo: int, hi: int)
    returns (s: string)
    requires s0 == Render(head, buffer, show, numStart)
    requires hi <= lo || (0 <= lo && hi <= |buffer|)
    ensures s == Render(head + Span(lo, hi), buffer, show, numStart)
  {
    s := s0;
    SpanEnds(head, lo, lo, hi);
    if hi <= lo {
      return;
    }
    var i := lo;
    while i < hi
      invariant lo <= i <= hi
      invariant s == Render(head + Span(lo, i), buffer, show, numStart)
    {
      s := WriteElement(buffer, show, numStart, head, lo, i, s);
      i := i + 1;
    }
  }


  /** The elision after the items written so far: `before` renders them,
      `after` is `before` with the elision's separator and text. */
  lemma ElisionStep(head: seq<Item>, remaining: int, buffer: seq<int>, show: int -> string, numStart: int,
                    before: string, after: string)
    requires remaining > 0
    requires before == Render(head, buffer, show, numStart)
    requires after == (if numStart != 0 then before + ", " else before) + ("... (+" + Decimal(remaining) + " elements) ...")
    ensures after == Render(head + [Elision(remaining)], buffer, show, numStart)
  {
    RenderSnoc(head, Elision(remaining), buffer, show, numStart);
    if numStart == 0 {
      assert before + "" == before;
    }
  }

  /** The elision of `fmtBuffer`, behind what `s0` already holds. */
  method WriteElision(buffer: seq<int>, show: int -> string, numStart: int,
                      ghost head: seq<Item>, s0: string, remaining: int)
    returns (s: string)
    requires remaining > 0
    requires s0 == Render(head, buffer, show, numStart)
    ensures s == Render(head + [Elision(remaining)], buffer, show, numStart)
  {
    s := s0;
    if numStart != 0 {
      s := s + ", ";
    }
    s := s + ("... (+" + Decimal(remaining) + " elements) ...");
    ElisionStep(head, remaining, buffer, show, numStart, s0, s);
  }

  /** The pieces `FmtBuffer` writes, put together, are `Items`. */
  lemma FmtParts(len: int, numStart: int, numEnd: int, remaining: int, head: seq<Item>)
    requires !PrintsNothing(len, numStart, numEnd) && remaining == len - numStart - numEnd
    requires remaining > 0 ==> head == [] + Span(0, Min(numStart, len)) + [Elision(remaining)]
    requires remaining <= 0 ==> head == [] + Span(0, Min(numStart, len))
    ensures Items(len, numStart, numEnd) == head + Span(Max(len - numEnd, numStart), len)
  {
    var lead := Span(0, Min(numStart, len));
    assert [] + lead == lead;
    assert Remaining(len, numStart, numEnd) == remaining;
    ItemsParts(len, numStart, numEnd);
  }

  /** `fmtBuffer(buffer, len, precision, numStart, numEnd)`: the output is
      the rendering of `Items`, and empty when nothing is asked for. */
  method FmtBuffer(buffer: seq<int>, len: int, numStart: int, numEnd: int, show: int -> string)
    returns (s: string)
    requires Int64(len) && Int64(numStart) && Int64(numEnd)
    requires !PrintsNothing(len, numStart, numEnd) ==>
      Int64(len - numStart) && Int64(len - numStart - numEnd) && Int64(len - numEnd)
    requires InBounds(buffer, len, numStart, numEnd)
    ensures s == Render(Items(len, numStart, numEnd), buffer, show, numStart)
    ensures PrintsNothing(len, numStart, numEnd) ==> s == ""
  {
    if len == 0 || (numStart == 0 && numEnd == 0) {
      return "";
    }
    s := WriteElements(buffer, show, numStart, [], "", 0, Min(numStart, len));
    ghost var head := [] + Span(0, Min(numStart, len));
    var remaining := len - numStart - numEnd;
    if remaining > 0 {
      s := WriteElision(buffer, show, numStart, head, s, remaining);
      head := head + [Elision(remaining)];
    }
    var diff := len - numEnd;
    s := WriteElements(buffer, show, numStart, head, s, Max(diff, numStart), len);
    FmtParts(len, numStart, numEnd, remaining, head);
  }

  /** The indices shown strictly increase from left to right, so no index is
      shown twice; any elision lies between the leading and the trailing
      elements. */
  lemma ItemsIncreasing(len: int, numStart: int, numEnd: int)
    ensures var items := Items(len, numStart, numEnd);
      forall a, b :: 0 <= a < b < |items| && items[a].Element? && items[b].Element? ==>
        items[a].index < items[b].index
    ensures var items := Items(len, numStart, numEnd);
      forall a, b :: 0 <= a < b < |items| && items[a].Elision? ==>
        items[b].Element? && items[b].index >= Max(len - numEnd, numStart)
  {
    if !PrintsNothing(len, numStart, numEnd) {
      var r := Remaining(len, numStart, numEnd);
      var lead := Span(0, Min(numStart, len));
      var mid: seq<Item> := if r > 0 then [Elision(r)] else [];
      var trail := Span(Max(len - numEnd, numStart), len);
      var items := lead + mid + trail;
      assert Items(len, numStart, numEnd) == items;
      forall k | 0 <= k < |items|
        ensures k < |lead| ==> items[k] == Element(k)
        ensures |lead| <= k < |lead| + |mid| ==> items[k] == Elision(r)
        ensures |lead| + |mid| <= k ==> items[k] == Element(Max(len - numEnd, numStart) + k - |lead| - |mid|)
      {
      }
    }
  }

  /** When `numStart` and `numEnd` together cover the array, every index
      `0 .. len-1` is shown exactly once, in order, and there is no elision. */
  lemma ItemsCoverAll(len: int, numStart: int, numEnd: int)
    requires !PrintsNothing(len, numStart, numEnd)
    requires 0 <= numStart && 0 <= len <= numStart + numEnd
    ensures Items(len, numStart, numEnd) == Span(0, len)
  {
    var lo := Min(numStart, len);
    var hi := Max(len - numEnd, numStart);
    if numStart < len {
      assert hi == numStart;
      assert Span(0, lo) + Span(hi, len) == Span(0, len);
    } else {
      assert Span(hi, len) == [];
      assert Span(0, lo) + [] == Span(0, len);
    }
  }

  /** The elision appears iff something is printed and more than `numStart +
      numEnd` elements exist; it then reports exactly that surplus. With
      non-negative parameters the output then shows exactly the first
      `numStart` and the last `numEnd` elements. */
  lemma ElisionIff(len: int, numStart: int, numEnd: int)
    ensures var items := Items(len, numStart, numEnd);
      (exists k :: 0 <= k < |items| && items[k].Elision?) <==>
        !PrintsNothing(len, numStart, numEnd) && Remaining(len, numStart, numEnd) > 0
    ensures var items := Items(len, numStart, numEnd);
      forall k :: 0 <= k < |items| && items[k].Elision? ==> items[k].remaining == len - numStart - numEnd
    ensures (!PrintsNothing(len, numStart, numEnd) && Remaining(len, numStart, numEnd) > 0
             && 0 <= numStart && 0 <= numEnd) ==>
      Items(len, numStart, numEnd) == Span(0, numStart) + [Elision(len - numStart - numEnd)] + Span(len - numEnd, len)
  {
    if !PrintsNothing(len, numStart, numEnd) {
      var r := Remaining(len, numStart, numEnd);
      var lead := Span(0, Min(numStart, len));
      var mid: seq<Item> := if r > 0 then [Elision(r)] else [];
      var trail := Span(Max(len - numEnd, numStart), len);
      var items := lead + mid + trail;
      assert Items(len, numStart, numEnd) == items;
      forall k | 0 <= k < |items|
        ensures items[k].Elision? <==> |lead| <= k < |lead| + |mid|
        ensures items[k].Elision? ==> items[k] == Elision(r)
      {
      }
      if r > 0 {
        assert items[|lead|].Elision?;
      }
    }
  }

  /** With the default parameters, twenty elements show as the first eight,
      the elision of eight, and the last four. */
  lemma DefaultsExample()
    ensures Items(20, DefaultNumStart, DefaultNumEnd) ==
      [Element(0), Element(1), Element(2), Element(3), Element(4), Element(5), Element(6), Element(7),
       Elision(8), Element(16), Element(17), Element(18), Element(19)]
  {
    ElisionIff(20, 8, 4);
  }

  /** A negative `numStart` shows no leading element but still writes the
      separator before the elision, so such output starts with `", "`. */
  lemma NegativeNumStartLeadsWithSeparator(buffer: seq<int>, len: int, numStart: int, numEnd: int, show: int -> string)
    requires numStart < 0 && 0 <= numEnd < len
    ensures |Items(len, numStart, numEnd)| > 0 && Items(len, numStart, numEnd)[0] == Elision(len - numStart - numEnd)
    ensures Separator(Items(len, numStart, numEnd)[0], numStart) == ", "
  {
    var lead := Span(0, Min(numStart, len));
    assert lead == [];
    ItemsParts(len, numStart, numEnd);
  }
}
