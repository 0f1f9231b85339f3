/** An already-parsed XML document, and the ElementTree queries the converters
    apply to it: `get`, `findall`, `findtext` and a two-step `findtext` path. */
module Xml {
  import opened Common

  /** One element: its tag, its attributes, its text (`None` when it has none)
      and its child elements in document order. */
  datatype Element = Element(tag: string, attrs: map<string, string>, text: Option<string>, children: seq<Element>)

  /** `e.get(key)`: the attribute's value, `None` when the attribute is absent. */
  function Attr(e: Element, key: string): (r: Option<string>)
    ensures r.Some? <==> key in e.attrs
    ensures r.Some? ==> r.value == e.attrs[key]
  {
    if key in e.attrs then Some(e.attrs[key]) else None
  }

  /** `e.get(key, default)`: the attribute's value, `default` when the attribute is absent. */
  function AttrOr(e: Element, key: string, default: string): (r: string)
    ensures key in e.attrs ==> r == e.attrs[key]
    ensures key !in e.attrs ==> r == default
  {
    Attr(e, key).GetOr(default)
  }

  /** The elements of `s` whose tag is `tag`, in document order. */
  function WithTag(s: seq<Element>, tag: string): (r: seq<Element>)
    ensures |r| <= |s|
    ensures forall i :: 0 <= i < |r| ==> r[i].tag == tag
    ensures r == [] <==> forall i :: 0 <= i < |s| ==> s[i].tag != tag
  {
    if s == [] then []
    else WithTag(s[..|s| - 1], tag) + (if s[|s| - 1].tag == tag then [s[|s| - 1]] else [])
  }

  /** Selecting by tag distributes over concatenation. */
  lemma {:induction false} WithTagAppend(a: seq<Element>, b: seq<Element>, tag: string)
    ensures WithTag(a + b, tag) == WithTag(a, tag) + WithTag(b, tag)
    decreases |b|
  {
    if b == [] {
      assert a + b == a;
    } else {
      assert (a + b)[..|a + b| - 1] == a + b[..|b| - 1];
      WithTagAppend(a, b[..|b| - 1], tag);
    }
  }

  /** Selecting by tag keeps a sequence whose elements all carry that tag. */
  lemma {:induction false} WithTagAll(s: seq<Element>, tag: string)
    requires forall i :: 0 <= i < |s| ==> s[i].tag == tag
    ensures WithTag(s, tag) == s
  {
    if s != [] {
      WithTagAll(s[..|s| - 1], tag);
      assert s == s[..|s| - 1] + [s[|s| - 1]];
    }
  }

  /** Selecting by tag drops a sequence whose elements all carry another tag. */
  lemma {:induction false} WithTagNone(s: seq<Element>, tag: string)
    requires forall i :: 0 <= i < |s| ==> s[i].tag != tag
    ensures WithTag(s, tag) == []
  {
    if s != [] {
      WithTagNone(s[..|s| - 1], tag);
    }
  }

  /** Position `i` holds the first element of `s` with the tag. */
  predicate FirstMatch(s: seq<Element>, tag: string, i: int) {
    0 <= i < |s| && s[i].tag == tag && forall j :: 0 <= j < i ==> s[j].tag != tag
  }

  /** The first selected element is the first element of `s` with the tag. */
  lemma {:induction false} WithTagFirst(s: seq<Element>, tag: string)
    requires WithTag(s, tag) != []
    ensures exists i :: FirstMatch(s, tag, i) && WithTag(s, tag)[0] == s[i]
  {
    var n := |s| - 1;
    var front := s[..n];
    var tail := if s[n].tag == tag then [s[n]] else [];
    assert WithTag(s, tag) == WithTag(front, tag) + tail;
    assert forall j :: 0 <= j < n ==> front[j] == s[j];
    if WithTag(front, tag) != [] {
      WithTagFirst(front, tag);
      var i :| FirstMatch(front, tag, i) && WithTag(front, tag)[0] == front[i];
      assert WithTag(s, tag)[0] == front[i] == s[i];
      assert FirstMatch(s, tag, i);
    } else {
      assert WithTag(s, tag) == tail == [s[n]];
      assert FirstMatch(s, tag, n);
    }
  }

  /** `e.findall(tag)`: the direct children with that tag, in document order. */
  function FindAll(e: Element, tag: string): seq<Element> {
    WithTag(e.children, tag)
  }

  /** The text ElementTree's `findtext` reports for a matched element: its text, or "" when it has none. */
  function TextOf(e: Element): string {
    e.text.GetOr("")
  }

  /** `e.findtext(tag)`: the text of the first child with that tag, `None` when there is no such child. */
  function FindText(e: Element, tag: string): (r: Option<string>)
    ensures r.None? <==> forall i :: 0 <= i < |e.children| ==> e.children[i].tag != tag
    ensures r.Some? ==> exists i :: FirstMatch(e.children, tag, i) && r.value == TextOf(e.children[i])
  {
    var cs := FindAll(e, tag);
    if cs == [] then None
    else
      WithTagFirst(e.children, tag);
      Some(TextOf(cs[0]))
  }

  /** `e.findtext(tag, default=d)`. */
  function FindTextOr(e: Element, tag: string, default: string): string {
    FindText(e, tag).GetOr(default)
  }

  /** The `child`-tagged children of every element of `parents`, parent by parent,
      which is the match order of the ElementTree path `parent/child`. */
  function ChildrenWithTag(parents: seq<Element>, child: string): (r: seq<Element>)
    ensures forall i :: 0 <= i < |r| ==> r[i].tag == child
    ensures r == [] <==> forall k :: 0 <= k < |parents| ==> !HasChild(parents[k], child)
  {
    if parents == [] then []
    else
      var front := parents[..|parents| - 1];
      assert forall k :: 0 <= k < |front| ==> front[k] == parents[k];
      ChildrenWithTag(front, child) + WithTag(parents[|parents| - 1].children, child)
  }

  /** Some child of `p` carries the tag. */
  predicate HasChild(p: Element, tag: string) {
    exists j :: 0 <= j < |p.children| && p.children[j].tag == tag
  }

  /** The first match of a path is the first `child`-tagged child of the first
      parent that has one. */
  lemma {:induction false} ChildrenWithTagFirst(parents: seq<Element>, child: string)
    requires ChildrenWithTag(parents, child) != []
    ensures exists i, j :: 0 <= i < |parents| && (forall k :: 0 <= k < i ==> !HasChild(parents[k], child))
                           && FirstMatch(parents[i].children, child, j)
                           && ChildrenWithTag(parents, child)[0] == parents[i].children[j]
  {
    var n := |parents| - 1;
    var front := parents[..n];
    var p := parents[n];
    assert ChildrenWithTag(parents, child) == ChildrenWithTag(front, child) + WithTag(p.children, child);
    if ChildrenWithTag(front, child) != [] {
      ChildrenWithTagFirst(front, child);
      var i, j :| 0 <= i < |front| && (forall k :: 0 <= k < i ==> !HasChild(front[k], child))
                  && FirstMatch(front[i].children, child, j)
                  && ChildrenWithTag(front, child)[0] == front[i].children[j];
      assert front[i] == parents[i];
      assert forall k :: 0 <= k < i ==> front[k] == parents[k];
      assert ChildrenWithTag(parents, child)[0] == parents[i].children[j];
    } else {
      assert forall k :: 0 <= k < n ==> front[k] == parents[k];
      WithTagFirst(p.children, child);
      var j :| FirstMatch(p.children, child, j) && WithTag(p.children, child)[0] == p.children[j];
      assert ChildrenWithTag(parents, child)[0] == p.children[j];
      assert forall k :: 0 <= k < n ==> !HasChild(parents[k], child);
    }
  }

  /** `e.findtext(parent + "/" + child)`: the text of the first match of the path, `None` when nothing matches. */
  function FindPathText(e: Element, parent: string, child: string): (r: Option<string>)
    ensures r.None? <==> forall k :: 0 <= k < |FindAll(e, parent)| ==> !HasChild(FindAll(e, parent)[k], child)
    ensures r.None? <==> ChildrenWithTag(FindAll(e, parent), child) == []
    ensures r.Some? ==> var ps := FindAll(e, parent);
              exists i, j :: 0 <= i < |ps| && (forall k :: 0 <= k < i ==> !HasChild(ps[k], child))
                             && FirstMatch(ps[i].children, child, j) && r.value == TextOf(ps[i].children[j])
  {
    var matches := ChildrenWithTag(FindAll(e, parent), child);
    if matches == [] then None
    else
      ChildrenWithTagFirst(FindAll(e, parent), child);
      Some(TextOf(matches[0]))
  }
}
