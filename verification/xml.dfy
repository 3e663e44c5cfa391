/** The parts of an lxml element tree the deployment script reads and rewrites. */
module Xml {
  import opened Wrappers

  /** An element: tag, attributes, leading text and child elements (comments and
      tails are not represented). */
  datatype Element = Element(tag: string, attrs: map<string, string>, text: string, children: seq<Element>)

  /** `element.get(name)`: the attribute value, or `None` when it is absent. */
  function Attr(e: Element, name: string): (r: Option<string>)
    ensures r.Some? <==> name in e.attrs
    ensures r.Some? ==> r.value == e.attrs[name]
  {
    if name in e.attrs then Some(e.attrs[name]) else None
  }

  /** Position of the first child carrying `tag`, as a `for child in children: if ...: return` loop finds it. */
  function FirstTagged(cs: seq<Element>, tag: string): (r: Option<nat>)
    ensures r.Some? ==> r.value < |cs| && cs[r.value].tag == tag
    ensures r.Some? ==> forall j | 0 <= j < r.value :: cs[j].tag != tag
    ensures r.None? <==> forall j | 0 <= j < |cs| :: cs[j].tag != tag
  {
    if |cs| == 0 then None
    else if cs[0].tag == tag then Some(0)
    else match FirstTagged(cs[1..], tag)
      case None => None
      case Some(i) => Some(i + 1)
  }

  /** Position of the last child carrying `tag`: the one a loop that keeps overwriting its match ends with. */
  function LastTagged(cs: seq<Element>, tag: string): (r: Option<nat>)
    ensures r.Some? ==> r.value < |cs| && cs[r.value].tag == tag
    ensures r.Some? ==> forall j | r.value < j < |cs| :: cs[j].tag != tag
    ensures r.None? <==> forall j | 0 <= j < |cs| :: cs[j].tag != tag
    decreases |cs|
  {
    if |cs| == 0 then None
    else if cs[|cs| - 1].tag == tag then Some(|cs| - 1)
    else LastTagged(cs[..|cs| - 1], tag)
  }

  /** `del parent[i]`. */
  function RemoveAt(cs: seq<Element>, i: nat): (r: seq<Element>)
    requires i < |cs|
    ensures |r| == |cs| - 1
    ensures cs == r[..i] + [cs[i]] + r[i..]
  {
    var r := cs[..i] + cs[i + 1..];
    assert r[..i] == cs[..i] && r[i..] == cs[i + 1..];
    r
  }

  /** Number of children carrying `tag`. */
  function CountTagged(cs: seq<Element>, tag: string): nat
  {
    if |cs| == 0 then 0
    else CountTagged(cs[..|cs| - 1], tag) + (if cs[|cs| - 1].tag == tag then 1 else 0)
  }

  /** The children that do not carry `tag`, in order. */
  function WithoutTagged(cs: seq<Element>, tag: string): (r: seq<Element>)
    ensures forall j | 0 <= j < |r| :: r[j].tag != tag
    ensures |r| == |cs| - CountTagged(cs, tag)
  {
    if |cs| == 0 then []
    else
      var init := WithoutTagged(cs[..|cs| - 1], tag);
      if cs[|cs| - 1].tag == tag then init else init + [cs[|cs| - 1]]
  }
}

/** Facts about removing tagged children. */
module XmlFacts {
  import opened Wrappers
  import opened Xml

  /** Removing the last `tag` child when it is the only one leaves exactly the other children. */
  lemma {:induction false} RemoveSoleTagged(cs: seq<Element>, tag: string)
    requires CountTagged(cs, tag) == 1
    ensures LastTagged(cs, tag).Some?
    ensures RemoveAt(cs, LastTagged(cs, tag).value) == WithoutTagged(cs, tag)
    decreases |cs|
  {
    var n := |cs| - 1;
    if cs[n].tag == tag {
      NoneTagged(cs[..n], tag);
      assert cs[..n] + cs[n + 1..] == cs[..n];
    } else {
      var init := cs[..n];
      RemoveSoleTagged(init, tag);
      assert cs == init + [cs[n]];
      AppendUntagged(init, cs[n], tag);
    }
  }

  /** Appending a child without `tag` keeps the last `tag` child where it was ... */
  lemma LastTaggedAppend(init: seq<Element>, x: Element, tag: string)
    requires x.tag != tag
    ensures LastTagged(init + [x], tag) == LastTagged(init, tag)
  {
    assert (init + [x])[..|init|] == init;
  }

  /** ... and is kept by the filter ... */
  lemma WithoutTaggedAppend(init: seq<Element>, x: Element, tag: string)
    requires x.tag != tag
    ensures WithoutTagged(init + [x], tag) == WithoutTagged(init, tag) + [x]
  {
    assert (init + [x])[..|init|] == init;
  }

  /** ... while deleting an earlier child does not touch it. */
  lemma RemoveAtAppend(init: seq<Element>, x: Element, i: nat)
    requires i < |init|
    ensures RemoveAt(init + [x], i) == RemoveAt(init, i) + [x]
  {
    var cs := init + [x];
    assert cs[..i] == init[..i];
    assert cs[i + 1..] == init[i + 1..] + [x];
  }

  /** So removing the last `tag` child still leaves exactly the other children. */
  lemma AppendUntagged(init: seq<Element>, x: Element, tag: string)
    requires x.tag != tag
    requires LastTagged(init, tag).Some?
    requires RemoveAt(init, LastTagged(init, tag).value) == WithoutTagged(init, tag)
    ensures LastTagged(init + [x], tag) == LastTagged(init, tag)
    ensures RemoveAt(init + [x], LastTagged(init, tag).value) == WithoutTagged(init + [x], tag)
  {
    LastTaggedAppend(init, x, tag);
    WithoutTaggedAppend(init, x, tag);
    RemoveAtAppend(init, x, LastTagged(init, tag).value);
  }

  /** Without any `tag` child, filtering them out changes nothing. */
  lemma {:induction false} NoneTagged(cs: seq<Element>, tag: string)
    requires CountTagged(cs, tag) == 0
    ensures LastTagged(cs, tag).None?
    ensures WithoutTagged(cs, tag) == cs
    decreases |cs|
  {
    if |cs| > 0 {
      var n := |cs| - 1;
      NoneTagged(cs[..n], tag);
      assert cs == cs[..n] + [cs[n]];
    }
  }
}
