/** Historian points and the payload comparison that drives on-change suppression. */
module Samples {
  import opened Wrappers

  const QUALITY_GOOD := 0
  const QUALITY_BAD := 1

  datatype Sample = Sample(
    time: int, tagId: string, num: Option<real>, text: Option<string>, flag: Option<bool>, quality: int)

  /** The value fields alone, and the value fields with the quality. */
  datatype Values = Values(num: Option<real>, text: Option<string>, flag: Option<bool>)

  function ValuesOf(s: Sample): Values {
    Values(s.num, s.text, s.flag)
  }

  function PayloadOf(s: Sample): (Values, int) {
    (ValuesOf(s), s.quality)
  }

  /** Pointer comparison: two absent values agree, an absent and a present one do not. */
  predicate SameField<T(==)>(a: Option<T>, b: Option<T>) {
    if a.None? || b.None? then a.None? && b.None? else a.value == b.value
  }

  predicate SamePayload(a: Sample, b: Sample) {
    a.quality == b.quality && SameField(a.num, b.num) && SameField(a.text, b.text) && SameField(a.flag, b.flag)
  }

  /** Time and tag id are ignored; everything else must agree. */
  lemma SamePayloadIsEquality(a: Sample, b: Sample)
    ensures SamePayload(a, b) <==> PayloadOf(a) == PayloadOf(b)
  {
  }

  /** Agreement on the value fields, and on the quality as well when `full`. */
  predicate Alike(a: Sample, b: Sample, full: bool) {
    ValuesOf(a) == ValuesOf(b) && (full ==> a.quality == b.quality)
  }

  /** The samples of one tag, in order. */
  function OfTag(tag: string, xs: seq<Sample>): (r: seq<Sample>)
    ensures forall s | s in r :: s in xs && s.tagId == tag
  {
    if xs == [] then []
    else
      var n := |xs| - 1;
      if xs[n].tagId == tag then OfTag(tag, xs[..n]) + [xs[n]] else OfTag(tag, xs[..n])
  }

  lemma OfTagSnoc(tag: string, xs: seq<Sample>, x: Sample)
    ensures OfTag(tag, xs + [x]) == if x.tagId == tag then OfTag(tag, xs) + [x] else OfTag(tag, xs)
  {
    assert (xs + [x])[..|xs|] == xs;
  }
}
