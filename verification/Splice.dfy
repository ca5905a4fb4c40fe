/** Replacing spans of a text by a placeholder, written left to right. */
module Splice {
  import opened Texts

  /** A match `[start, end)` of a text. */
  datatype Span = Span(start: nat, end: nat)

  /** What `finditer` promises: spans in order, not overlapping, from `pos` to the end of a text of `n` characters. */
  predicate Ordered(n: nat, spans: seq<Span>, pos: nat) {
    if spans == [] then pos <= n
    else pos <= spans[0].start <= spans[0].end && Ordered(n, spans[1..], spans[0].end)
  }

  /** The text from `pos` on, with each span replaced: gap, placeholder, gap, ... */
  function Fill(text: string, spans: seq<Span>, placeholder: string, pos: nat): string
    requires Ordered(|text|, spans, pos)
  {
    OrderedInside(|text|, spans, pos);
    if spans == [] then text[pos..]
    else text[pos..spans[0].start] + placeholder + Fill(text, spans[1..], placeholder, spans[0].end)
  }

  function Widths(spans: seq<Span>): int {
    if spans == [] then 0 else spans[0].end - spans[0].start + Widths(spans[1..])
  }

  lemma {:induction false} OrderedInside(n: nat, spans: seq<Span>, pos: nat)
    requires Ordered(n, spans, pos)
    ensures pos <= n && (spans != [] ==> spans[0].end <= n)
  {
    if spans == [] {
    } else {
      OrderedInside(n, spans[1..], spans[0].end);
    }
  }

  /** Every span trades its own width for the placeholder's. */
  lemma {:induction false} FillLength(text: string, spans: seq<Span>, placeholder: string, pos: nat)
    requires Ordered(|text|, spans, pos)
    ensures |Fill(text, spans, placeholder, pos)| == |text| - pos - Widths(spans) + |spans| * |placeholder|
  {
    OrderedInside(|text|, spans, pos);
    if spans == [] {
    } else {
      FillLength(text, spans[1..], placeholder, spans[0].end);
    }
  }

  /** Filling may start at any point of the first gap. */
  lemma FillFrom(text: string, spans: seq<Span>, placeholder: string, pos: nat, mid: nat)
    requires pos <= mid && Ordered(|text|, spans, mid)
    ensures Ordered(|text|, spans, pos)
    ensures mid <= |text| && Fill(text, spans, placeholder, pos) == text[pos..mid] + Fill(text, spans, placeholder, mid)
  {
    OrderedInside(|text|, spans, mid);
    if spans == [] {
      SplitAgain(text, pos, mid);
    } else {
      var s := spans[0];
      assert text[pos..s.start] == text[pos..mid] + text[mid..s.start];
      Assoc(text[pos..mid], text[mid..s.start], placeholder);
      Assoc(text[pos..mid], text[mid..s.start] + placeholder, Fill(text, spans[1..], placeholder, s.end));
    }
  }
}
