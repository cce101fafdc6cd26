/**
 * The marker-driven scan over an IEX JSON response that both the real-time
 * price download and the market-summary hub perform: from the scan position,
 * find `symbol":"`, take the ticker up to the next `"`, find `<attr>":`, take
 * the value up to the next `,"`, and continue from that `,"`. The scan stops as
 * soon as one marker is missing or the position reaches the end of the text.
 */
module IexScan {
  import opened Wrappers
  import ClrText

  datatype Quote = Quote(ticker: string, value: string)

  const SymbolMarker: string := "symbol\":\""
  const TickerEnd: string := "\""
  const ValueEnd: string := ",\""

  function AttributeMarker(attr: string): string
  {
    attr + "\":"
  }

  /** Where one pass of the loop body finds the ticker and the value. */
  datatype Marks = Marks(tickerStart: nat, tickerEnd: nat, valueStart: nat, valueEnd: nat)

  /**
   * The markers one pass of the loop body looks for from position `from`:
   * the ticker runs from after `symbol":"` to the next `"`, the value from after
   * the next `<attr>":` to the next `,"`; `None` when a marker is missing.
   */
  function FindMarks(text: string, attr: string, from: nat): (r: Option<Marks>)
    requires from <= |text|
    ensures r.Some? ==> from + |SymbolMarker| <= r.value.tickerStart <= r.value.tickerEnd <= |text|
    ensures r.Some? ==> r.value.valueStart <= r.value.valueEnd < |text| && ClrText.OccursAt(text, ValueEnd, r.value.valueEnd)
    ensures r.Some? ==> forall i :: r.value.tickerStart <= i < r.value.tickerEnd ==> !ClrText.OccursAt(text, TickerEnd, i)
    ensures r.Some? ==> forall i :: r.value.valueStart <= i < r.value.valueEnd ==> !ClrText.OccursAt(text, ValueEnd, i)
  {
    var bSymbol := ClrText.IndexOf(text, SymbolMarker, from);
    if bSymbol == -1 then None
    else
      var b := bSymbol + |SymbolMarker|;
      var eSymbol := ClrText.IndexOf(text, TickerEnd, b);
      if eSymbol == -1 then None
      else
        var bAttribute := ClrText.IndexOf(text, AttributeMarker(attr), eSymbol);
        if bAttribute == -1 then None
        else
          var bv := bAttribute + |AttributeMarker(attr)|;
          var eAttribute := ClrText.IndexOf(text, ValueEnd, bv);
          if eAttribute == -1 then None
          else Some(Marks(b, eSymbol, bv, eAttribute))
  }

  /** The markers found at the positions the `IndexOf` calls return. */
  lemma FindMarksAt(text: string, attr: string, from: nat, bSymbol: int, eSymbol: int, bAttribute: int, eAttribute: int)
    requires from <= |text|
    requires ClrText.IndexOf(text, SymbolMarker, from) == bSymbol != -1
    requires ClrText.IndexOf(text, TickerEnd, bSymbol + |SymbolMarker|) == eSymbol != -1
    requires ClrText.IndexOf(text, AttributeMarker(attr), eSymbol) == bAttribute != -1
    requires ClrText.IndexOf(text, ValueEnd, bAttribute + |AttributeMarker(attr)|) == eAttribute != -1
    ensures FindMarks(text, attr, from) == Some(Marks(bSymbol + |SymbolMarker|, eSymbol, bAttribute + |AttributeMarker(attr)|, eAttribute))
  {
  }

  /**
   * One pass of the loop body from position `from`: the quote read and the next
   * position, or `None` when a marker is missing.
   */
  function ScanStep(text: string, attr: string, from: nat): (r: Option<(Quote, nat)>)
    requires from <= |text|
    ensures r.Some? ==> from + |SymbolMarker| <= r.value.1 < |text| && ClrText.OccursAt(text, ValueEnd, r.value.1)
    ensures r.Some? ==> '"' !in r.value.0.ticker
    ensures r.Some? ==> forall i :: 0 <= i < |r.value.0.value| - 1 ==> !ClrText.OccursAt(r.value.0.value, ValueEnd, i)
  {
    match FindMarks(text, attr, from)
    case None => None
    case Some(m) =>
      TickerHasNoQuote(text, m.tickerStart, m.tickerEnd);
      ValueHasNoEnd(text, m.valueStart, m.valueEnd);
      Some((Quote(text[m.tickerStart..m.tickerEnd], text[m.valueStart..m.valueEnd]), m.valueEnd))
  }

  /** A ticker read up to the first closing quote holds no quote. */
  lemma TickerHasNoQuote(text: string, b: nat, e: nat)
    requires b <= e <= |text|
    requires forall i :: b <= i < e ==> !ClrText.OccursAt(text, TickerEnd, i)
    ensures '"' !in text[b..e]
  {
    forall k | 0 <= k < e - b
      ensures text[b..e][k] != '"'
    {
      assert !ClrText.OccursAt(text, TickerEnd, b + k);
      assert text[b + k..b + k + 1] == [text[b + k]];
    }
  }

  /** A value read up to the first `,"` holds no `,"` of its own. */
  lemma ValueHasNoEnd(text: string, b: nat, e: nat)
    requires b <= e <= |text|
    requires forall i :: b <= i < e ==> !ClrText.OccursAt(text, ValueEnd, i)
    ensures forall i :: 0 <= i < |text[b..e]| - 1 ==> !ClrText.OccursAt(text[b..e], ValueEnd, i)
  {
    var v := text[b..e];
    forall i | 0 <= i < |v| - 1
      ensures !ClrText.OccursAt(v, ValueEnd, i)
    {
      assert !ClrText.OccursAt(text, ValueEnd, b + i);
      SliceOfSlice(text, b, e, i, i + |ValueEnd|);
    }
  }

  /** A slice of a slice is a slice of the whole. */
  lemma SliceOfSlice<T>(s: seq<T>, b: nat, e: nat, i: nat, j: nat)
    requires b <= e <= |s| && i <= j <= e - b
    ensures s[b..e][i..j] == s[b + i..b + j]
  {
    var x, y := s[b..e][i..j], s[b + i..b + j];
    assert |x| == j - i == |y|;
    forall k | 0 <= k < j - i
      ensures x[k] == y[k]
    {
      assert x[k] == s[b..e][i + k] == s[b + i + k];
    }
  }

  /** Where all four markers are found, one scan step reads the text between them. */
  lemma ScanStepAt(text: string, attr: string, from: nat, bSymbol: int, eSymbol: int, bAttribute: int, eAttribute: int)
    requires from <= |text|
    requires ClrText.IndexOf(text, SymbolMarker, from) == bSymbol != -1
    requires ClrText.IndexOf(text, TickerEnd, bSymbol + |SymbolMarker|) == eSymbol != -1
    requires ClrText.IndexOf(text, AttributeMarker(attr), eSymbol) == bAttribute != -1
    requires ClrText.IndexOf(text, ValueEnd, bAttribute + |AttributeMarker(attr)|) == eAttribute != -1
    ensures bSymbol + |SymbolMarker| <= eSymbol && bAttribute + |AttributeMarker(attr)| <= eAttribute < |text|
    ensures ScanStep(text, attr, from) == Some((Quote(text[bSymbol + |SymbolMarker|..eSymbol],
      text[bAttribute + |AttributeMarker(attr)|..eAttribute]), eAttribute))
  {
    FindMarksAt(text, attr, from, bSymbol, eSymbol, bAttribute, eAttribute);
  }

  /**
   * The body of the scan loop: the four `IndexOf` searches, each from where the
   * previous one left off, and the ticker and value cut out between them.
   */
  method NextQuote(text: string, attr: string, from: nat) returns (r: Option<(Quote, nat)>)
    requires from <= |text|
    ensures r == ScanStep(text, attr, from)
  {
    var bSymbol := ClrText.IndexOf(text, SymbolMarker, from);
    if bSymbol == -1 {
      return None;
    }
    ghost var symbolAt := bSymbol;
    bSymbol := bSymbol + |SymbolMarker|;
    var eSymbol := ClrText.IndexOf(text, TickerEnd, bSymbol);
    if eSymbol == -1 {
      return None;
    }
    var ticker := text[bSymbol..eSymbol];
    var bAttribute := ClrText.IndexOf(text, AttributeMarker(attr), eSymbol);
    if bAttribute == -1 {
      return None;
    }
    ghost var attributeAt := bAttribute;
    bAttribute := bAttribute + |AttributeMarker(attr)|;
    var eAttribute := ClrText.IndexOf(text, ValueEnd, bAttribute);
    if eAttribute == -1 {
      return None;
    }
    var attributeStr := text[bAttribute..eAttribute];
    ScanStepAt(text, attr, from, symbolAt, eSymbol, attributeAt, eAttribute);
    return Some((Quote(ticker, attributeStr), eAttribute));
  }

  /** Every quote the loop reads from position `from` on, in order. */
  function Quotes(text: string, attr: string, from: nat): (qs: seq<Quote>)
    requires from <= |text|
    ensures forall k :: 0 <= k < |qs| ==> '"' !in qs[k].ticker
    decreases |text| - from
  {
    if from >= |text| then []
    else
      match ScanStep(text, attr, from)
      case None => []
      case Some((q, next)) => [q] + Quotes(text, attr, next)
  }

  /** A response with no symbol marker at or after `from` yields no quotes. */
  lemma NoMarkerNoQuotes(text: string, attr: string, from: nat)
    requires from <= |text|
    requires forall i :: from <= i <= |text| ==> !ClrText.OccursAt(text, SymbolMarker, i)
    ensures Quotes(text, attr, from) == []
  {
    if from < |text| {
      assert FindMarks(text, attr, from).None? by {
        assert ClrText.IndexOf(text, SymbolMarker, from) == -1;
      }
    }
  }

  /** The number of quotes is bounded by the text: each one consumes at least two characters. */
  lemma {:induction false} QuotesBounded(text: string, attr: string, from: nat)
    requires from <= |text|
    ensures 2 * |Quotes(text, attr, from)| <= |text| - from
    decreases |text| - from
  {
    if from < |text| {
      match ScanStep(text, attr, from)
      case None =>
      case Some((q, next)) =>
        QuotesBounded(text, attr, next);
        assert next + 2 <= |text| by {
          assert ClrText.OccursAt(text, ValueEnd, next);
        }
    }
  }

  /** Where the scan stops at `from`, no more quotes are read. */
  lemma ScanStops(text: string, attr: string, from: nat)
    requires from < |text|
    requires ScanStep(text, attr, from).None?
    ensures Quotes(text, attr, from) == []
  {
  }

  /** A scan step that reads a quote extends the quotes read so far by it. */
  lemma ScanAdvances(text: string, attr: string, from: nat, q: Quote, next: nat, done: seq<Quote>)
    requires from < |text|
    requires ScanStep(text, attr, from) == Some((q, next))
    requires Quotes(text, attr, 0) == done + Quotes(text, attr, from)
    ensures Quotes(text, attr, 0) == (done + [q]) + Quotes(text, attr, next)
  {
    QuotesStep(text, attr, from, q, next);
    ConsAssoc(done, q, Quotes(text, attr, next));
  }

  lemma ConsAssoc<T>(a: seq<T>, x: T, b: seq<T>)
    ensures a + ([x] + b) == (a + [x]) + b
  {
  }

  /** The quotes from `from` are the one its scan step reads, then those from where the step ended. */
  lemma QuotesStep(text: string, attr: string, from: nat, q: Quote, next: nat)
    requires from < |text|
    requires ScanStep(text, attr, from) == Some((q, next))
    ensures Quotes(text, attr, from) == [q] + Quotes(text, attr, next)
  {
  }
}
