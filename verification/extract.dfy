/**
  The element filters of both scrapers, over an abstract parsed page: the elements in
  document order, each with its tag name, its attributes and its `get_text()`. CSS
  selection is an oracle from a selector to the `get_text()` of each matching element.
 */
module Extract {
  import opened Wrappers
  import opened Text

  /** One element of the parsed page: `tag.name`, `tag.attrs` and `tag.get_text()`. */
  datatype Element = Element(tag: string, attrs: map<string, string>, text: string)

  /** `element.get(name, '')`. */
  function Attr(e: Element, name: string): string {
    if name in e.attrs then e.attrs[name] else ""
  }

  /** Keeps, in order, the images of the elements that `f` maps to a value. */
  function FilterMap<T, U>(xs: seq<T>, f: T -> Option<U>): (r: seq<U>)
    ensures |r| <= |xs|
  {
    if |xs| == 0 then []
    else
      var rest := FilterMap(xs[1..], f);
      match f(xs[0])
      case Some(y) => [y] + rest
      case None => rest
  }

  /** A value is kept exactly when some element maps to it. */
  lemma {:induction false} FilterMapMembers<T, U>(xs: seq<T>, f: T -> Option<U>, y: U)
    ensures y in FilterMap(xs, f) <==> exists i :: 0 <= i < |xs| && f(xs[i]) == Some(y)
    decreases |xs|
  {
    if |xs| > 0 {
      FilterMapMembers(xs[1..], f, y);
      if y in FilterMap(xs[1..], f) {
        var i :| 0 <= i < |xs[1..]| && f(xs[1..][i]) == Some(y);
        assert f(xs[i + 1]) == Some(y);
      }
      if exists i :: 0 <= i < |xs| && f(xs[i]) == Some(y) {
        var i :| 0 <= i < |xs| && f(xs[i]) == Some(y);
        if i > 0 {
          assert xs[1..][i - 1] == xs[i];
        }
      }
    }
  }

  /** Every kept value satisfies whatever `f` guarantees of its values. */
  lemma {:induction false} FilterMapAll<T, U>(xs: seq<T>, f: T -> Option<U>, p: U -> bool)
    requires forall x :: f(x).Some? ==> p(f(x).value)
    ensures forall k :: 0 <= k < |FilterMap(xs, f)| ==> p(FilterMap(xs, f)[k])
    decreases |xs|
  {
    if |xs| > 0 {
      FilterMapAll(xs[1..], f, p);
    }
  }

  // ---------------------------------------------------------------- paragraphs

  /** `_extract_all_paragraphs` on one element: a `<p>` whose stripped text is longer than ten
      characters. */
  function Paragraph(e: Element): Option<string> {
    var text := Strip(e.text);
    if e.tag == "p" && |text| > 10 then Some(text) else None
  }

  /** `_extract_all_paragraphs`: the stripped text of every substantial paragraph, in
      document order. */
  function Paragraphs(doc: seq<Element>): seq<string> {
    FilterMap(doc, Paragraph)
  }

  /** A text is listed exactly when it is the stripped text, over ten characters long, of a
      paragraph of the page; every listed text is substantial and stripped. */
  lemma ParagraphsAre(doc: seq<Element>, s: string)
    ensures s in Paragraphs(doc) <==>
              exists i :: 0 <= i < |doc| && doc[i].tag == "p" && Strip(doc[i].text) == s && |s| > 10
    ensures forall k :: 0 <= k < |Paragraphs(doc)| ==>
              |Paragraphs(doc)[k]| > 10 && !IsSpace(Paragraphs(doc)[k][0]) &&
              !IsSpace(Paragraphs(doc)[k][|Paragraphs(doc)[k]| - 1])
  {
    FilterMapMembers(doc, Paragraph, s);
    FilterMapAll(doc, Paragraph, (t: string) => |t| > 10 && !IsSpace(t[0]) && !IsSpace(t[|t| - 1]));
  }

  // ---------------------------------------------------------------- headings

  /** One entry of `_extract_all_headings`: `{'level': f'h{rank}', 'text': text}`. */
  datatype Heading = Heading(rank: nat, text: string)

  /** The tag name of heading rank `rank`, for ranks 1 to 6. */
  function HeadingTag(rank: nat): (tag: string)
    requires 1 <= rank <= 6
    ensures |tag| == 2 && tag[0] == 'h'
  {
    ['h', "123456"[rank - 1]]
  }

  lemma HeadingTagInjective(a: nat, b: nat)
    requires 1 <= a <= 6 && 1 <= b <= 6 && HeadingTag(a) == HeadingTag(b)
    ensures a == b
  {
    assert HeadingTag(a)[1] == HeadingTag(b)[1];
  }

  function HeadingOf(rank: nat, e: Element): Option<Heading>
    requires 1 <= rank <= 6
  {
    var text := Strip(e.text);
    if e.tag == HeadingTag(rank) && text != "" then Some(Heading(rank, text)) else None
  }

  /** The headings of ranks `rank` to 6: all headings of one rank, in document order,
      before any of the next rank. */
  function HeadingsFrom(doc: seq<Element>, rank: nat): (r: seq<Heading>)
    requires 1 <= rank <= 7
    ensures forall k :: 0 <= k < |r| ==> rank <= r[k].rank <= 6 && r[k].text != ""
    ensures forall k, l :: 0 <= k <= l < |r| ==> r[k].rank <= r[l].rank
    decreases 7 - rank
  {
    if rank == 7 then []
    else
      var here := FilterMap(doc, e => HeadingOf(rank, e));
      FilterMapAll(doc, e => HeadingOf(rank, e), (h: Heading) => h.rank == rank && h.text != "");
      here + HeadingsFrom(doc, rank + 1)
  }

  /** `_extract_all_headings` of the complete scraper. */
  function Headings(doc: seq<Element>): seq<Heading> {
    HeadingsFrom(doc, 1)
  }

  /** A heading is listed exactly when an element of the page has that heading's tag and
      that (non-empty) stripped text. */
  lemma {:induction false} HeadingsFromAre(doc: seq<Element>, rank: nat, h: Heading)
    requires 1 <= rank <= 7
    ensures h in HeadingsFrom(doc, rank) <==>
              rank <= h.rank <= 6 && h.text != "" &&
              exists i :: 0 <= i < |doc| && doc[i].tag == HeadingTag(h.rank) && Strip(doc[i].text) == h.text
    decreases 7 - rank
  {
    if rank < 7 {
      var f := e => HeadingOf(rank, e);
      FilterMapMembers(doc, f, h);
      HeadingsFromAre(doc, rank + 1, h);
      if h.rank != rank && 1 <= h.rank <= 6 {
        forall i | 0 <= i < |doc| && doc[i].tag == HeadingTag(h.rank)
          ensures f(doc[i]) != Some(h)
        {
          if doc[i].tag == HeadingTag(rank) {
            HeadingTagInjective(rank, h.rank);
          }
        }
      }
    }
  }

  lemma HeadingsAre(doc: seq<Element>, h: Heading)
    ensures h in Headings(doc) <==>
              1 <= h.rank <= 6 && h.text != "" &&
              exists i :: 0 <= i < |doc| && doc[i].tag == HeadingTag(h.rank) && Strip(doc[i].text) == h.text
  {
    HeadingsFromAre(doc, 1, h);
  }

  // ---------------------------------------------------------------- buttons

  const ButtonInputTypes: seq<string> := ["button", "submit", "reset"]

  /** `_extract_button_text` on one element: a `<button>`, or an `<input>` whose `type` is a
      button type, contributes its stripped text, or else its stripped `value`. */
  function Button(e: Element): (r: Option<string>) {
    if e.tag == "button" || (e.tag == "input" && "type" in e.attrs && e.attrs["type"] in ButtonInputTypes) then
      var text := Strip(e.text);
      var value := Strip(Attr(e, "value"));
      if text != "" then Some(text) else if value != "" then Some(value) else None
    else None
  }

  function Buttons(doc: seq<Element>): seq<string> {
    FilterMap(doc, Button)
  }

  /** A label is listed exactly when a button element carries it as its text, or as its
      `value` when its text is blank; inputs of other types and untyped inputs never count. */
  lemma ButtonsAre(doc: seq<Element>, s: string)
    ensures s in Buttons(doc) <==>
              exists i :: 0 <= i < |doc| &&
                (doc[i].tag == "button" || (doc[i].tag == "input" && "type" in doc[i].attrs &&
                                             doc[i].attrs["type"] in ButtonInputTypes)) &&
                s != "" &&
                (s == Strip(doc[i].text) || (Strip(doc[i].text) == "" && s == Strip(Attr(doc[i], "value"))))
  {
    FilterMapMembers(doc, Button, s);
  }

  // ---------------------------------------------------------------- links

  /** One entry of the LLM scraper's `_extract_links`. */
  datatype Link = Link(url: string, anchorText: string)

  const MaxLinks: nat := 50

  /** An anchor `_extract_links` keeps: it has an `href`, the `href` is non-empty and its
      stripped text is non-empty. */
  predicate Kept(e: Element) {
    e.tag == "a" && "href" in e.attrs && e.attrs["href"] != "" && Strip(e.text) != ""
  }

  /** Every kept anchor with its `urljoin(base, href)`; None when `urljoin` raises on any of
      them, which makes the whole page fail. */
  function AllLinks(doc: seq<Element>, base: string, resolve: (string, string) -> Option<string>): (r: Option<seq<Link>>)
    ensures r.Some? ==> |r.value| <= |doc|
  {
    if |doc| == 0 then Some([])
    else
      var e := doc[0];
      var rest := AllLinks(doc[1..], base, resolve);
      if !Kept(e) then rest
      else
        match resolve(base, e.attrs["href"])
        case None => None
        case Some(full) =>
          if rest.None? then None else Some([Link(full, Strip(e.text))] + rest.value)
  }

  /** `_extract_links`: the first fifty links of the page. */
  function ExtractLinks(doc: seq<Element>, base: string, resolve: (string, string) -> Option<string>): Option<seq<Link>> {
    match AllLinks(doc, base, resolve)
    case None => None
    case Some(all) => Some(if |all| <= MaxLinks then all else all[..MaxLinks])
  }

  /** Link extraction fails exactly when resolving a kept anchor raises, even one past the
      fiftieth. */
  lemma {:induction false} AllLinksFail(doc: seq<Element>, base: string, resolve: (string, string) -> Option<string>)
    ensures AllLinks(doc, base, resolve).None? <==>
              exists i :: 0 <= i < |doc| && Kept(doc[i]) && resolve(base, doc[i].attrs["href"]).None?
    decreases |doc|
  {
    if |doc| > 0 {
      var tail := doc[1..];
      AllLinksFail(tail, base, resolve);
      if exists i :: 0 <= i < |tail| && Kept(tail[i]) && resolve(base, tail[i].attrs["href"]).None? {
        var i :| 0 <= i < |tail| && Kept(tail[i]) && resolve(base, tail[i].attrs["href"]).None?;
        assert doc[i + 1] == tail[i];
      }
      if exists i :: 0 <= i < |doc| && Kept(doc[i]) && resolve(base, doc[i].attrs["href"]).None? {
        var i :| 0 <= i < |doc| && Kept(doc[i]) && resolve(base, doc[i].attrs["href"]).None?;
        if i > 0 {
          assert tail[i - 1] == doc[i];
        }
      }
    }
  }

  /** The link made from anchor `e`, when it is kept and resolves. */
  predicate LinkFrom(e: Element, base: string, resolve: (string, string) -> Option<string>, l: Link) {
    Kept(e) && resolve(base, e.attrs["href"]) == Some(l.url) && l.anchorText == Strip(e.text)
  }

  /** When no anchor fails, the links are exactly those made from the kept anchors. */
  lemma {:induction false} AllLinksAre(doc: seq<Element>, base: string, resolve: (string, string) -> Option<string>, l: Link)
    requires AllLinks(doc, base, resolve).Some?
    ensures l in AllLinks(doc, base, resolve).value <==>
              exists i :: 0 <= i < |doc| && LinkFrom(doc[i], base, resolve, l)
    decreases |doc|
  {
    if |doc| > 0 {
      AllLinksStep(doc, base, resolve, l);
      AllLinksAre(doc[1..], base, resolve, l);
      LinkFromShift(doc, base, resolve, l);
    }
  }

  /** The links of a page are the link of its first element, if any, and those of the rest. */
  lemma AllLinksStep(doc: seq<Element>, base: string, resolve: (string, string) -> Option<string>, l: Link)
    requires |doc| > 0 && AllLinks(doc, base, resolve).Some?
    ensures AllLinks(doc[1..], base, resolve).Some?
    ensures l in AllLinks(doc, base, resolve).value <==>
              LinkFrom(doc[0], base, resolve, l) || l in AllLinks(doc[1..], base, resolve).value
  {
    var rest := AllLinks(doc[1..], base, resolve);
    if Kept(doc[0]) {
      var full := resolve(base, doc[0].attrs["href"]).value;
      assert AllLinks(doc, base, resolve).value == [Link(full, Strip(doc[0].text))] + rest.value;
    }
  }

  lemma LinkFromShift(doc: seq<Element>, base: string, resolve: (string, string) -> Option<string>, l: Link)
    requires |doc| > 0
    ensures (exists i :: 0 <= i < |doc| && LinkFrom(doc[i], base, resolve, l)) <==>
              LinkFrom(doc[0], base, resolve, l) || exists i :: 0 <= i < |doc[1..]| && LinkFrom(doc[1..][i], base, resolve, l)
  {
    if exists i :: 0 <= i < |doc[1..]| && LinkFrom(doc[1..][i], base, resolve, l) {
      var i :| 0 <= i < |doc[1..]| && LinkFrom(doc[1..][i], base, resolve, l);
      assert doc[i + 1] == doc[1..][i];
    }
    if exists i :: 0 <= i < |doc| && LinkFrom(doc[i], base, resolve, l) {
      var i :| 0 <= i < |doc| && LinkFrom(doc[i], base, resolve, l);
      if i > 0 {
        assert doc[1..][i - 1] == doc[i];
      }
    }
  }

  /** At most fifty links, and they are a prefix of all the page's links. */
  lemma ExtractLinksCapped(doc: seq<Element>, base: string, resolve: (string, string) -> Option<string>)
    ensures ExtractLinks(doc, base, resolve).Some? <==> AllLinks(doc, base, resolve).Some?
    ensures ExtractLinks(doc, base, resolve).Some? ==>
              |ExtractLinks(doc, base, resolve).value| == Min(|AllLinks(doc, base, resolve).value|, MaxLinks) &&
              ExtractLinks(doc, base, resolve).value <= AllLinks(doc, base, resolve).value
  {
  }

  function Min(a: int, b: int): int {
    if a <= b then a else b
  }

  // ---------------------------------------------------------------- product info

  /** The selector lists of `_extract_product_info`, in the order of its keys. */
  const ProductSelectors: seq<(string, seq<string>)> := [
    ("description", [".product-description", ".description", ".summary"]),
    ("features", [".features", ".product-features", ".benefits"]),
    ("price", [".price", ".cost", ".pricing"]),
    ("specifications", [".specs", ".specifications", ".details"])
  ]

  /** `' '.join(el.get_text().strip() for el in soup.select(selector))`, given the
      `get_text()` of each selected element. */
  function SelectorText(select: string -> seq<string>, selector: string): string {
    Join(" ", StripAll(select(selector)))
  }

  /** The joined text of the first selector whose joined text is non-empty; a selector with
      no elements joins to the empty text. */
  function FirstText(select: string -> seq<string>, selectors: seq<string>): (r: Option<string>)
    ensures r.Some? ==> r.value != ""
  {
    if |selectors| == 0 then None
    else
      var text := SelectorText(select, selectors[0]);
      if text != "" then Some(text) else FirstText(select, selectors[1..])
  }

  /** FirstText picks the first selector with text, and finds none only when no selector
      has text. */
  lemma {:induction false} FirstTextIsFirst(select: string -> seq<string>, selectors: seq<string>)
    ensures FirstText(select, selectors).None? <==>
              forall j :: 0 <= j < |selectors| ==> SelectorText(select, selectors[j]) == ""
    ensures FirstText(select, selectors).Some? ==>
              exists j :: 0 <= j < |selectors| && SelectorText(select, selectors[j]) == FirstText(select, selectors).value &&
                forall i :: 0 <= i < j ==> SelectorText(select, selectors[i]) == ""
    decreases |selectors|
  {
    if |selectors| > 0 {
      var tail := selectors[1..];
      FirstTextIsFirst(select, tail);
      assert forall j :: 1 <= j < |selectors| ==> selectors[j] == tail[j - 1];
      if SelectorText(select, selectors[0]) == "" && FirstText(select, tail).Some? {
        var j :| 0 <= j < |tail| && SelectorText(select, tail[j]) == FirstText(select, tail).value &&
                 forall i :: 0 <= i < j ==> SelectorText(select, tail[i]) == "";
        assert forall i :: 1 <= i < j + 1 ==> selectors[i] == tail[i - 1];
        assert SelectorText(select, selectors[j + 1]) == FirstText(select, selectors).value;
      }
    }
  }

  /** `_extract_product_info`: the (key, text) entries of the result, in key order. */
  function ProductInfoFrom(select: string -> seq<string>, keys: seq<(string, seq<string>)>): (r: seq<(string, string)>)
    ensures |r| <= |keys|
    ensures forall k :: 0 <= k < |r| ==> r[k].1 != ""
  {
    if |keys| == 0 then []
    else
      var rest := ProductInfoFrom(select, keys[1..]);
      match FirstText(select, keys[0].1)
      case Some(text) => [(keys[0].0, text)] + rest
      case None => rest
  }

  function ProductInfo(select: string -> seq<string>): seq<(string, string)> {
    ProductInfoFrom(select, ProductSelectors)
  }

  /** The keys of the product info are among the four, in order and without repeats. */
  lemma ProductInfoKeys(select: string -> seq<string>)
    ensures |ProductInfo(select)| <= 4
    ensures forall k :: 0 <= k < |ProductInfo(select)| ==>
              ProductInfo(select)[k].0 in ["description", "features", "price", "specifications"]
    ensures forall k, l :: 0 <= k < l < |ProductInfo(select)| ==> ProductInfo(select)[k].0 != ProductInfo(select)[l].0
  {
    var names := ["description", "features", "price", "specifications"];
    assert forall i :: 0 <= i < |ProductSelectors| ==> ProductSelectors[i].0 == names[i];
    KeysDistinct(select, ProductSelectors);
    forall k | 0 <= k < |ProductInfo(select)|
      ensures ProductInfo(select)[k].0 in names
    {
      var i :| 0 <= i < |ProductSelectors| && ProductSelectors[i].0 == ProductInfo(select)[k].0;
    }
  }

  /** Each key of the result names a selector list, and no key appears twice when the
      lists' names are distinct. */
  lemma {:induction false} KeysDistinct(select: string -> seq<string>, keys: seq<(string, seq<string>)>)
    requires forall i, j :: 0 <= i < j < |keys| ==> keys[i].0 != keys[j].0
    ensures forall k, l :: 0 <= k < l < |ProductInfoFrom(select, keys)| ==>
              ProductInfoFrom(select, keys)[k].0 != ProductInfoFrom(select, keys)[l].0
    ensures forall k :: 0 <= k < |ProductInfoFrom(select, keys)| ==> NamesKey(keys, ProductInfoFrom(select, keys)[k].0)
    decreases |keys|
  {
    if |keys| > 0 {
      var tail := keys[1..];
      KeysDistinct(select, tail);
      var rest := ProductInfoFrom(select, tail);
      forall k | 0 <= k < |rest|
        ensures NamesKey(keys, rest[k].0)
        ensures rest[k].0 != keys[0].0
      {
        var i :| 0 <= i < |tail| && tail[i].0 == rest[k].0;
        assert keys[i + 1] == tail[i];
      }
      var r := ProductInfoFrom(select, keys);
      if r != rest {
        assert r == [(keys[0].0, FirstText(select, keys[0].1).value)] + rest;
        forall k | 0 <= k < |r|
          ensures NamesKey(keys, r[k].0)
        {
          if k > 0 {
            assert r[k] == rest[k - 1];
          }
        }
      }
    }
  }

  /** Some selector list in `keys` has the name `key`. */
  predicate NamesKey(keys: seq<(string, seq<string>)>, key: string) {
    exists i :: 0 <= i < |keys| && keys[i].0 == key
  }

  /** The `if text:` guard does not reject blank content: two or more selected elements
      whose text is all whitespace join to the separating spaces, which are kept as the value. */
  lemma BlankElementsGiveSpace(select: string -> seq<string>, selector: string)
    requires |select(selector)| >= 2
    requires forall k, i :: 0 <= k < |select(selector)| && 0 <= i < |select(selector)[k]| ==>
                            IsSpace(select(selector)[k][i])
    ensures SelectorText(select, selector) == seq(|select(selector)| - 1, _ => ' ')
    ensures FirstText(select, [selector]) == Some(seq(|select(selector)| - 1, _ => ' '))
  {
    var els := select(selector);
    forall k | 0 <= k < |els|
      ensures StripAll(els)[k] == ""
    {
      StripEmpty(els[k]);
    }
    JoinBlanks(StripAll(els));
  }

  /** Joining empty texts with `' '` leaves only the separators. */
  lemma {:induction false} JoinBlanks(parts: seq<string>)
    requires |parts| > 0 && forall k :: 0 <= k < |parts| ==> parts[k] == ""
    ensures Join(" ", parts) == seq(|parts| - 1, _ => ' ')
    decreases |parts|
  {
    if |parts| > 1 {
      JoinBlanks(parts[1..]);
      assert seq(|parts| - 1, _ => ' ') == " " + seq(|parts| - 2, _ => ' ');
    }
  }

}
