/**
 * The parsed index page as the crawler sees it: lxml elements with a tag, attributes, the
 * text before their first child, and their child elements in document order.
 */
module Markup {
  import opened Wrappers

  /**
   * One element of the parsed page. `text` is lxml's `.text`, which is None when the element
   * has no text before its first child. Comments and processing instructions among the
   * children are elements whose tag is neither "li" nor "ul".
   */
  datatype Element = Element(tag: string, attrs: map<string, string>, text: Option<string>, children: seq<Element>)

  /** `c.xpath('a')` on an element with these children: its direct `a` children, in order. */
  function Anchors(children: seq<Element>): seq<Element>
  {
    if children == [] then []
    else if children[0].tag == "a" then [children[0]] + Anchors(children[1..])
    else Anchors(children[1..])
  }

  /**
   * The anchors are exactly the `a` children, and the first of them is the first `a` child
   * in document order.
   */
  lemma {:induction false} AnchorsSpec(children: seq<Element>)
    ensures var r := Anchors(children);
      (forall x :: x in r ==> x in children && x.tag == "a") &&
      (forall k :: 0 <= k < |children| && children[k].tag == "a" ==> children[k] in r) &&
      (r != [] ==>
         exists k :: 0 <= k < |children| && children[k] == r[0] &&
                     forall j :: 0 <= j < k ==> children[j].tag != "a")
  {
    if children != [] {
      var rest := children[1..];
      AnchorsSpec(rest);
      var r := Anchors(children);
      forall k | 0 <= k < |children| && children[k].tag == "a" ensures children[k] in r {
        if k > 0 {
          assert children[k] == rest[k - 1];
        }
      }
      if r != [] && children[0].tag != "a" {
        var k :| 0 <= k < |rest| && rest[k] == r[0] && forall j :: 0 <= j < k ==> rest[j].tag != "a";
        assert children[k + 1] == r[0];
        assert forall j :: 1 <= j < k + 1 ==> children[j] == rest[j - 1];
      }
    }
  }

  /** `a.get('href')`: the attribute's value, or None when the element has no href. */
  function Href(a: Element): Option<string>
  {
    if "href" in a.attrs then Some(a.attrs["href"]) else None
  }

  /** Python's truth test `if href:` on an attribute value: present and not empty. */
  predicate Truthy(href: Option<string>)
  {
    href.Some? && href.value != []
  }

  /** The `li` child leads to a download: its first anchor has a present, non-empty href. */
  predicate IsLeaf(c: Element)
  {
    c.tag == "li" && var an := Anchors(c.children); an != [] && Truthy(Href(an[0]))
  }

  /** The `li` child is a section heading: it has no direct anchor at all. */
  predicate IsHeading(c: Element)
  {
    c.tag == "li" && Anchors(c.children) == []
  }

  /**
   * The `.text` that the crawler reads of an `li` child is present: the first anchor's text
   * for a leaf, the `li`'s own text for a heading. (A missing text there makes crawl.py fail.)
   */
  predicate LiTextPresent(c: Element)
  {
    (IsLeaf(c) ==> Anchors(c.children)[0].text.Some?) &&
    (IsHeading(c) ==> c.text.Some?)
  }

  /** Every text the crawler reads while walking the sibling list `cs`, and the lists below it, is present. */
  predicate TextsPresent(cs: seq<Element>)
    decreases cs
  {
    cs == [] ||
    (TextsPresent(cs[..|cs| - 1]) && ChildPresent(cs[|cs| - 1]))
  }

  /** The texts read for one child, and below it when it is a `ul`, are present. */
  predicate ChildPresent(c: Element)
    decreases c
  {
    LiTextPresent(c) && (c.tag == "ul" ==> TextsPresent(c.children))
  }

  /** The texts of every prefix of a list, and of each of its members, are present when the list's are. */
  lemma {:induction false} PresentParts(cs: seq<Element>, i: nat)
    requires TextsPresent(cs) && i <= |cs|
    ensures TextsPresent(cs[..i])
    ensures i < |cs| ==> ChildPresent(cs[i])
    decreases |cs|
  {
    if i < |cs| {
      var init := cs[..|cs| - 1];
      if i < |cs| - 1 {
        PresentParts(init, i);
        assert init[..i] == cs[..i] && init[i] == cs[i];
      } else {
        assert cs[..i] == init;
      }
    } else {
      assert cs[..i] == cs;
    }
  }
}
