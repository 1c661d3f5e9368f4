/**
 * The listing extractor `parse_events`: from the event elements of a fetched
 * page to event records. Fetching the page and finding the elements are not
 * modelled; the page arrives as the sequence of its `div.events-elem`
 * elements in document order, each reduced to the first tag of each kind
 * found inside it.
 */
module Parser {
  import opened Wrappers
  import opened Text
  import opened Seqs

  /** An `a.title` tag: its text, and its `href` attribute when it has one. */
  datatype Anchor = Anchor(text: string, href: Option<string>)

  /** An `img` tag: its `src` attribute when it has one. */
  datatype Image = Image(src: Option<string>)

  /**
   * One `div.events-elem`: its title anchor (which is also the link anchor),
   * the text of its `div.date` and `div.price` blocks, and its image, each
   * `None` when the element has no such tag.
   */
  datatype Element = Element(titleLink: Option<Anchor>, date: Option<string>,
                             price: Option<string>, image: Option<Image>)

  /** One extracted event, the dictionary `parse_events` appends. */
  datatype EventRecord = EventRecord(title: string, date: string, link: string,
                                     price: Option<string>, imageUrl: Option<string>)

  /** Reading an attribute a tag does not have (`tag['href']`) raises `KeyError`. */
  datatype ParseError = KeyError(key: string)

  /**
   * `urljoin(base, ref)`: how a relative reference resolves against the page URL.
   * It is total here: the `ValueError` urljoin raises on a malformed host is not modelled.
   */
  type Resolver = (string, string) -> string

  /** An element is kept when it has both a title anchor and a date block. */
  predicate HasRequired(e: Element)
  {
    e.titleLink.Some? && e.date.Some?
  }

  /** The attribute whose absence makes the extraction of a kept element raise, checked in source order. */
  function MissingAttribute(e: Element): Option<string>
    requires HasRequired(e)
  {
    if e.titleLink.value.href.None? then Some("href")
    else if e.image.Some? && e.image.value.src.None? then Some("src")
    else None
  }

  /**
   * `r` is the record of element `e` on the page at `base`: title, date and price
   * are the stripped texts of their tags, the link and the image URL are resolved
   * against `base`, and price and image are `None` exactly when their tag is absent.
   */
  predicate IsRecordOf(base: string, e: Element, resolve: Resolver, r: EventRecord)
  {
    && e.titleLink.Some? && e.date.Some?
    && r.title == Strip(e.titleLink.value.text)
    && r.date == Strip(e.date.value)
    && e.titleLink.value.href.Some? && r.link == resolve(base, e.titleLink.value.href.value)
    && (r.price.None? <==> e.price.None?)
    && (e.price.Some? ==> r.price == Some(Strip(e.price.value)))
    && (r.imageUrl.None? <==> e.image.None?)
    && (e.image.Some? ==> e.image.value.src.Some? && r.imageUrl == Some(resolve(base, e.image.value.src.value)))
  }

  /** The record built from a kept element whose attributes are all present. */
  function Record(base: string, e: Element, resolve: Resolver): EventRecord
    requires HasRequired(e) && MissingAttribute(e).None?
  {
    var anchor := e.titleLink.value;
    EventRecord(
      Strip(anchor.text),
      Strip(e.date.value),
      resolve(base, anchor.href.value),
      if e.price.Some? then Some(Strip(e.price.value)) else None,
      if e.image.Some? then Some(resolve(base, e.image.value.src.value)) else None)
  }

  /** The record built from an element is a record of that element. */
  lemma RecordIsRecordOf(base: string, e: Element, resolve: Resolver)
    requires HasRequired(e) && MissingAttribute(e).None?
    ensures IsRecordOf(base, e, resolve, Record(base, e, resolve))
  {
  }

  /** What one loop iteration contributes: nothing, one record, or an exception. */
  function ExtractOne(base: string, e: Element, resolve: Resolver): Result<seq<EventRecord>, ParseError>
  {
    if !HasRequired(e) then Success([])
    else match MissingAttribute(e)
      case Some(key) => Failure(KeyError(key))
      case None => Success([Record(base, e, resolve)])
  }

  /** Run two parts in order: the first error raised wins, otherwise the records are joined. */
  function Concat(x: Result<seq<EventRecord>, ParseError>, y: Result<seq<EventRecord>, ParseError>)
    : Result<seq<EventRecord>, ParseError>
  {
    match x
    case Failure(_) => x
    case Success(xs) =>
      match y
      case Failure(_) => y
      case Success(ys) => Success(xs + ys)
  }

  /** An empty success contributes nothing. */
  lemma ConcatEmpty(y: Result<seq<EventRecord>, ParseError>)
    ensures Concat(Success([]), y) == y
  {
    if y.Success? {
      assert [] + y.value == y.value;
    }
  }

  /** Joining is associative, so the outcome does not depend on how the page is split. */
  lemma ConcatAssoc(x: Result<seq<EventRecord>, ParseError>, y: Result<seq<EventRecord>, ParseError>,
                    z: Result<seq<EventRecord>, ParseError>)
    ensures Concat(Concat(x, y), z) == Concat(x, Concat(y, z))
  {
    if x.Success? && y.Success? && z.Success? {
      assert x.value + y.value + z.value == x.value + (y.value + z.value);
    }
  }

  /** The outcome of `parse_events` on a page whose event elements are `es`. */
  function Parse(base: string, es: seq<Element>, resolve: Resolver): Result<seq<EventRecord>, ParseError>
  {
    if es == [] then Success([])
    else Concat(ExtractOne(base, es[0], resolve), Parse(base, es[1..], resolve))
  }

  /**
   * `parse_events(url)` once the page has been fetched and its event elements
   * found: one pass in document order that appends a record for every kept
   * element and stops at the first missing attribute.
   */
  method ParseEvents(url: string, elements: seq<Element>, resolve: Resolver)
    returns (r: Result<seq<EventRecord>, ParseError>)
    ensures r == Parse(url, elements, resolve)
    ensures |elements| == 0 ==> r == Success([])
    ensures r.Success? ==> |r.value| <= |elements|
  {
    var events: seq<EventRecord> := [];
    if |elements| == 0 {
      return Success(events);
    }
    for i := 0 to |elements|
      invariant Parse(url, elements[..i], resolve) == Success(events)
      invariant |events| <= i
    {
      var e := elements[i];
      if e.titleLink.Some? && e.date.Some? {
        var anchor := e.titleLink.value;
        if anchor.href.None? {
          assert Parse(url, elements, resolve) == Failure(KeyError("href")) by {
            RaisesAt(url, elements, i, resolve);
          }
          return Failure(KeyError("href"));
        }
        var link := resolve(url, anchor.href.value);
        var price := if e.price.Some? then Some(Strip(e.price.value)) else None;
        var imageUrl := None;
        if e.image.Some? {
          if e.image.value.src.None? {
            assert Parse(url, elements, resolve) == Failure(KeyError("src")) by {
              RaisesAt(url, elements, i, resolve);
            }
            return Failure(KeyError("src"));
          }
          imageUrl := Some(resolve(url, e.image.value.src.value));
        }
        var record := EventRecord(Strip(anchor.text), Strip(e.date.value), link, price, imageUrl);
        assert Parse(url, elements[..i + 1], resolve) == Success(events + [record]) by {
          assert record == Record(url, e, resolve);
          Extends(url, elements, i, resolve);
        }
        events := events + [record];
      } else {
        assert Parse(url, elements[..i + 1], resolve) == Success(events) by {
          Extends(url, elements, i, resolve);
          assert events + [] == events;
        }
      }
    }
    assert elements[..|elements|] == elements;
    return Success(events);
  }

  /**
   * Parsing a concatenation: the first error wins, and when both halves
   * succeed the records are the first half's followed by the second's.
   */
  lemma {:induction false} ParseAppend(base: string, a: seq<Element>, b: seq<Element>, resolve: Resolver)
    ensures Parse(base, a + b, resolve) == Concat(Parse(base, a, resolve), Parse(base, b, resolve))
  {
    if a == [] {
      assert a + b == b;
      ConcatEmpty(Parse(base, b, resolve));
    } else {
      assert (a + b)[0] == a[0];
      assert (a + b)[1..] == a[1..] + b;
      ParseAppend(base, a[1..], b, resolve);
      ConcatAssoc(ExtractOne(base, a[0], resolve), Parse(base, a[1..], resolve), Parse(base, b, resolve));
    }
  }

  /** One more element: its contribution is joined after the records so far. */
  lemma ParseSnoc(base: string, a: seq<Element>, e: Element, resolve: Resolver)
    ensures Parse(base, a + [e], resolve) == Concat(Parse(base, a, resolve), ExtractOne(base, e, resolve))
  {
    ParseAppend(base, a, [e], resolve);
    var x := ExtractOne(base, e, resolve);
    assert Parse(base, [e], resolve) == Concat(x, Parse(base, [], resolve));
    if x.Success? {
      assert x.value + [] == x.value;
    }
  }

  /** The outcome after the element at `i` is the outcome before it joined with that element's contribution. */
  lemma Extends(base: string, es: seq<Element>, i: nat, resolve: Resolver)
    requires i < |es|
    ensures Parse(base, es[..i + 1], resolve) == Concat(Parse(base, es[..i], resolve), ExtractOne(base, es[i], resolve))
  {
    assert es[..i + 1] == es[..i] + [es[i]];
    ParseSnoc(base, es[..i], es[i], resolve);
  }

  /** When the prefix before `i` succeeds and the element at `i` raises, the whole page raises that error. */
  lemma RaisesAt(base: string, es: seq<Element>, i: nat, resolve: Resolver)
    requires i < |es| && Parse(base, es[..i], resolve).Success?
    requires ExtractOne(base, es[i], resolve).Failure?
    ensures Parse(base, es, resolve) == ExtractOne(base, es[i], resolve)
  {
    Extends(base, es, i, resolve);
    assert es[..i + 1] + es[i + 1..] == es;
    ParsePrefixFails(base, es[..i + 1], es[i + 1..], resolve);
  }

  /** Once a prefix raises, the rest of the page is never looked at. */
  lemma ParsePrefixFails(base: string, a: seq<Element>, b: seq<Element>, resolve: Resolver)
    requires Parse(base, a, resolve).Failure?
    ensures Parse(base, a + b, resolve) == Parse(base, a, resolve)
  {
    ParseAppend(base, a, b, resolve);
  }

  /**
   * With a total `resolve`, parsing raises exactly when some kept element lacks
   * the `href` of its anchor or the `src` of its image.
   */
  lemma {:induction false} ParseFailsIff(base: string, es: seq<Element>, resolve: Resolver)
    ensures Parse(base, es, resolve).Success? <==>
              forall k :: 0 <= k < |es| && HasRequired(es[k]) ==> MissingAttribute(es[k]).None?
    ensures Parse(base, es, resolve).Failure? ==> Parse(base, es, resolve).error in {KeyError("href"), KeyError("src")}
  {
    if es != [] {
      ParseFailsIff(base, es[1..], resolve);
      assert forall k :: 1 <= k < |es| ==> es[k] == es[1..][k - 1];
    }
  }

  /**
   * On success the records correspond one to one, in document order, with the
   * elements that have a title anchor and a date block: the record at each
   * position is built from the kept element at the same position among the kept ones.
   */
  lemma {:induction false} ParseBuildsKept(base: string, es: seq<Element>, resolve: Resolver)
    requires Parse(base, es, resolve).Success?
    ensures |Parse(base, es, resolve).value| == |Filter(es, HasRequired)|
    ensures forall k :: 0 <= k < |Filter(es, HasRequired)| ==>
              && HasRequired(Filter(es, HasRequired)[k])
              && MissingAttribute(Filter(es, HasRequired)[k]).None?
              && Parse(base, es, resolve).value[k] == Record(base, Filter(es, HasRequired)[k], resolve)
  {
    if es != [] {
      ParseBuildsKept(base, es[1..], resolve);
      var x := ExtractOne(base, es[0], resolve);
      var y := Parse(base, es[1..], resolve);
      assert Parse(base, es, resolve) == Concat(x, y);
      var kept := Filter(es, HasRequired);
      var rest := Filter(es[1..], HasRequired);
      var evs := Parse(base, es, resolve).value;
      assert x.Success? && y.Success? && evs == x.value + y.value;
      if HasRequired(es[0]) {
        assert kept == [es[0]] + rest;
        assert x.value == [Record(base, es[0], resolve)];
        BuiltCons(base, es[0], rest, y.value, resolve);
      } else {
        assert kept == rest;
        assert x.value == [];
        assert evs == y.value;
      }
    }
  }

  /** The kept elements and their records stay aligned when a kept element and its record are put in front. */
  lemma BuiltCons(base: string, e: Element, kept: seq<Element>, evs: seq<EventRecord>, resolve: Resolver)
    requires HasRequired(e) && MissingAttribute(e).None?
    requires |kept| == |evs|
    requires forall k :: 0 <= k < |kept| ==>
               HasRequired(kept[k]) && MissingAttribute(kept[k]).None? && evs[k] == Record(base, kept[k], resolve)
    ensures forall k :: 0 <= k < |kept| + 1 ==>
              && HasRequired(([e] + kept)[k])
              && MissingAttribute(([e] + kept)[k]).None?
              && ([Record(base, e, resolve)] + evs)[k] == Record(base, ([e] + kept)[k], resolve)
  {
    forall k | 1 <= k < |kept| + 1
      ensures && HasRequired(([e] + kept)[k])
              && MissingAttribute(([e] + kept)[k]).None?
              && ([Record(base, e, resolve)] + evs)[k] == Record(base, ([e] + kept)[k], resolve)
    {
      assert ([e] + kept)[k] == kept[k - 1];
      assert ([Record(base, e, resolve)] + evs)[k] == evs[k - 1];
    }
  }

  /**
   * Hence each record is the record of the kept element at its position: its
   * fields come from that element's tags as `IsRecordOf` describes.
   */
  lemma ParseRecordsOfKept(base: string, es: seq<Element>, resolve: Resolver)
    requires Parse(base, es, resolve).Success?
    ensures |Parse(base, es, resolve).value| == |Filter(es, HasRequired)|
    ensures forall k :: 0 <= k < |Filter(es, HasRequired)| ==>
              IsRecordOf(base, Filter(es, HasRequired)[k], resolve, Parse(base, es, resolve).value[k])
  {
    ParseBuildsKept(base, es, resolve);
    var kept := Filter(es, HasRequired);
    forall k | 0 <= k < |kept|
      ensures IsRecordOf(base, kept[k], resolve, Parse(base, es, resolve).value[k])
    {
      RecordIsRecordOf(base, kept[k], resolve);
    }
  }

  /** Each record comes from some element of the page that had a title anchor and a date block. */
  lemma ParseRecordsComplete(base: string, es: seq<Element>, resolve: Resolver)
    requires Parse(base, es, resolve).Success?
    ensures forall r :: r in Parse(base, es, resolve).value ==>
              exists e :: e in es && HasRequired(e) && IsRecordOf(base, e, resolve, r)
  {
    ParseRecordsOfKept(base, es, resolve);
    var kept := Filter(es, HasRequired);
    FilterMembers(es, HasRequired);
    var evs := Parse(base, es, resolve).value;
    forall r | r in evs
      ensures exists e :: e in es && HasRequired(e) && IsRecordOf(base, e, resolve, r)
    {
      var k :| 0 <= k < |evs| && evs[k] == r;
      assert kept[k] in kept;
    }
  }

  /** An element lacking its title anchor or its date block changes nothing: the others are extracted as without it. */
  lemma ParseSkipsIncomplete(base: string, a: seq<Element>, d: Element, b: seq<Element>, resolve: Resolver)
    requires !HasRequired(d)
    ensures Parse(base, a + [d] + b, resolve) == Parse(base, a + b, resolve)
  {
    ParseAppend(base, a, [d] + b, resolve);
    ParseAppend(base, a, b, resolve);
    assert ([d] + b)[1..] == b;
    assert a + [d] + b == a + ([d] + b);
    assert Parse(base, [d] + b, resolve) == Concat(Success([]), Parse(base, b, resolve));
    ConcatEmpty(Parse(base, b, resolve));
  }

  /** Records are not de-duplicated: a page listed twice yields its records twice. */
  lemma ParseKeepsDuplicates(base: string, es: seq<Element>, resolve: Resolver)
    requires Parse(base, es, resolve).Success?
    ensures Parse(base, es + es, resolve) == Success(Parse(base, es, resolve).value + Parse(base, es, resolve).value)
  {
    ParseAppend(base, es, es, resolve);
  }
}
