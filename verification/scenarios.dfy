/** The negotiation cases of the extension's test-suite, each proved for
    the model: a header value and a catalog, and the coding chosen. */
module Scenarios {
  import opened Wrappers
  import opened Text
  import opened QValue
  import opened AcceptEncoding
  import opened Negotiation
  import opened Catalog

  /** How a test writes one list element: white space, a coding, and
      the qvalue text of an optional weight. */
  datatype Element = Element(pad: string, coding: string, weight: Option<string>)

  function ElementText(e: Element): string {
    e.pad + e.coding + (if e.weight.Some? then ";q=" + e.weight.value else "")
  }

  function ElementTexts(es: seq<Element>): (r: seq<string>)
    ensures |r| == |es| && forall k :: 0 <= k < |es| ==> r[k] == ElementText(es[k])
  {
    if |es| == 0 then [] else [ElementText(es[0])] + ElementTexts(es[1..])
  }

  function HeaderText(es: seq<Element>): string {
    Join(ElementTexts(es), [','])
  }

  /** The preference an element stands for. */
  ghost predicate Denotes(e: Element, p: Preference) {
    && (forall k :: 0 <= k < |e.pad| ==> IsSpace(e.pad[k]))
    && IsCoding(e.coding)
    && p.coding == e.coding
    && (if e.weight.Some? then ParseQValue(e.weight.value) == Some(p.quality) else p.quality == DefaultQuality)
  }

  lemma ElementParses(e: Element, p: Preference)
    requires Denotes(e, p)
    ensures ',' !in ElementText(e)
    ensures ParseItem(ElementText(e)) == Some(p)
  {
    assert ',' !in e.pad;
    if e.weight.Some? {
      assert ElementText(e) == e.pad + e.coding + ";q=" + e.weight.value;
      RenderedItemHasNoComma(e.pad, e.coding, e.weight.value);
      WeightedItem(e.pad, e.coding, e.weight.value);
    } else {
      assert ElementText(e) == e.pad + e.coding;
      DefaultQualityIsOne(e.pad, e.coding);
    }
  }

  /** An unweighted element, padded by at most one space. */
  lemma BareElement(e: Element, p: Preference)
    requires e.weight.None? && (e.pad == "" || e.pad == " ")
    requires IsCoding(e.coding) && p == Preference(e.coding, DefaultQuality)
    ensures Denotes(e, p)
  {
  }

  /** A weighted element, padded by at most one space. */
  lemma WeightedElement(e: Element, p: Preference)
    requires e.weight.Some? && (e.pad == "" || e.pad == " ")
    requires IsCoding(e.coding) && p.coding == e.coding
    requires ParseQValue(e.weight.value) == Some(p.quality)
    ensures Denotes(e, p)
  {
  }

  /** The catalog entries weigh what `ws` lists, entry by entry. */
  ghost predicate WeighsAs(prefs: seq<Preference>, catalog: seq<string>, ws: seq<int>) {
    |ws| == |catalog| && forall j :: 0 <= j < |catalog| ==> Weight(prefs, catalog[j]) == ws[j]
  }

  /** Reads the outcome off a table of weights: entry `k` is positive, as
      large as any, and larger than every entry before it. */
  lemma ChosenByWeights(prefs: seq<Preference>, catalog: seq<string>, ws: seq<int>, k: int)
    requires WeighsAs(prefs, catalog, ws)
    requires 0 <= k < |ws| && ws[k] > 0
    requires forall j :: 0 <= j < |ws| ==> ws[j] <= ws[k]
    requires forall j :: 0 <= j < k ==> ws[j] < ws[k]
    ensures Choose(prefs, catalog) == Some(catalog[k])
  {
    assert IsBestAt(prefs, catalog, k);
    BestIsChosen(prefs, catalog, k);
  }

  /** A header written element by element parses to the preferences the
      elements stand for. */
  lemma HeaderParses(header: string, es: seq<Element>, prefs: seq<Preference>)
    requires |es| == |prefs| >= 1
    requires header == HeaderText(es)
    requires forall k :: 0 <= k < |es| ==> Denotes(es[k], prefs[k])
    ensures ParseHeader(header) == prefs
  {
    var items := ElementTexts(es);
    forall k | 0 <= k < |es|
      ensures ',' !in items[k] && ParseItem(items[k]) == Some(prefs[k])
    {
      ElementParses(es[k], prefs[k]);
    }
    HeaderOfItems(items);
    ItemsParse(items, prefs);
  }

  lemma OneAlgoSupportedHeader()
    ensures ParseHeader("gzip")
            == [Preference("gzip", 1000)]
  {
    SingleCodingHeader("gzip");
  }

  lemma OneAlgoSupportedWeights(prefs: seq<Preference>, catalog: seq<string>, ws: seq<int>)
    requires prefs == [Preference("gzip", 1000)]
    requires catalog == ["br", "gzip"]
    requires ws == [0, 1000]
    ensures WeighsAs(prefs, catalog, ws)
  {
    NamedOnce(prefs, 0);
    Unnamed(prefs, "br");
  }

  lemma OneAlgoSupportedChoice(prefs: seq<Preference>, catalog: seq<string>, ws: seq<int>)
    requires prefs == [Preference("gzip", 1000)]
    requires catalog == ["br", "gzip"]
    requires ws == [0, 1000]
    ensures Choose(prefs, catalog) == Some("gzip")
  {
    OneAlgoSupportedWeights(prefs, catalog, ws);
    ChosenByWeights(prefs, catalog, ws, 1);
  }

  /** `gzip` against `[br, gzip]`: the one supported coding the client
      names is chosen, although it is not first in the catalog. */
  lemma OneAlgoSupported()
    ensures Choose(ParseHeader("gzip"), ["br", "gzip"]) == Some("gzip")
  {
    OneAlgoSupportedChoice([Preference("gzip", 1000)], ["br", "gzip"], [0, 1000]);
    OneAlgoSupportedHeader();
  }

  lemma OneAlgoUnsupportedHeader()
    ensures ParseHeader("some-alien-algorithm")
            == [Preference("some-alien-algorithm", 1000)]
  {
    SingleCodingHeader("some-alien-algorithm");
  }

  lemma OneAlgoUnsupportedChoice(prefs: seq<Preference>, catalog: seq<string>)
    requires prefs == [Preference("some-alien-algorithm", 1000)]
    requires catalog == ["br", "gzip"]
    ensures Choose(prefs, catalog) == None
  {
    NothingSupported(prefs, catalog);
  }

  /** `some-alien-algorithm` against `[br, gzip]`: nothing is chosen. */
  lemma OneAlgoUnsupported()
    ensures Choose(ParseHeader("some-alien-algorithm"), ["br", "gzip"]) == None
  {
    OneAlgoUnsupportedChoice([Preference("some-alien-algorithm", 1000)], ["br", "gzip"]);
    OneAlgoUnsupportedHeader();
  }

  lemma MultipleAlgosSupportedTexts(es: seq<Element>)
    requires es == [Element("", "br", None), Element(" ", "gzip", None), Element(" ", "zstd", None)]
    ensures ElementTexts(es) == ["br", " gzip", " zstd"]
  {
    assert ElementText(es[0]) == "br";
    assert ElementText(es[1]) == " gzip";
    assert ElementText(es[2]) == " zstd";
  }

  lemma MultipleAlgosSupportedJoin()
    ensures Join(["br", " gzip", " zstd"], [',']) == "br, gzip, zstd"
  {
  }

  lemma MultipleAlgosSupportedDenotes(es: seq<Element>, prefs: seq<Preference>)
    requires es == [Element("", "br", None), Element(" ", "gzip", None), Element(" ", "zstd", None)]
    requires prefs == [Preference("br", 1000), Preference("gzip", 1000), Preference("zstd", 1000)]
    ensures |es| == |prefs| && forall k :: 0 <= k < |es| ==> Denotes(es[k], prefs[k])
  {
    BareElement(es[0], prefs[0]);
    BareElement(es[1], prefs[1]);
    BareElement(es[2], prefs[2]);
  }

  lemma MultipleAlgosSupportedHeader()
    ensures ParseHeader("br, gzip, zstd")
            == [Preference("br", 1000), Preference("gzip", 1000), Preference("zstd", 1000)]
  {
    var prefs := [Preference("br", 1000), Preference("gzip", 1000), Preference("zstd", 1000)];
    var es := [Element("", "br", None), Element(" ", "gzip", None), Element(" ", "zstd", None)];
    MultipleAlgosSupportedDenotes(es, prefs);
    MultipleAlgosSupportedTexts(es);
    MultipleAlgosSupportedJoin();
    HeaderParses("br, gzip, zstd", es, prefs);
  }

  lemma MultipleAlgosSupportedWeights(prefs: seq<Preference>, catalog: seq<string>, ws: seq<int>)
    requires prefs == [Preference("br", 1000), Preference("gzip", 1000), Preference("zstd", 1000)]
    requires catalog == ["zstd", "br", "gzip"]
    requires ws == [1000, 1000, 1000]
    ensures WeighsAs(prefs, catalog, ws)
  {
    NamedOnce(prefs, 0);
    NamedOnce(prefs, 1);
    NamedOnce(prefs, 2);
  }

  lemma MultipleAlgosSupportedChoice(prefs: seq<Preference>, catalog: seq<string>, ws: seq<int>)
    requires prefs == [Preference("br", 1000), Preference("gzip", 1000), Preference("zstd", 1000)]
    requires catalog == ["zstd", "br", "gzip"]
    requires ws == [1000, 1000, 1000]
    ensures Choose(prefs, catalog) == Some("zstd")
  {
    MultipleAlgosSupportedWeights(prefs, catalog, ws);
    ChosenByWeights(prefs, catalog, ws, 0);
  }

  /** `br, gzip, zstd` against `[zstd, br, gzip]`: all tie at quality 1,
      so the server's first entry wins over the client's first. */
  lemma MultipleAlgosSupported()
    ensures Choose(ParseHeader("br, gzip, zstd"), ["zstd", "br", "gzip"]) == Some("zstd")
  {
    MultipleAlgosSupportedChoice([Preference("br", 1000), Preference("gzip", 1000), Preference("zstd", 1000)], ["zstd", "br", "gzip"], [1000, 1000, 1000]);
    MultipleAlgosSupportedHeader();
  }

  lemma MultipleAlgosUnsupportedTexts(es: seq<Element>)
    requires es == [Element("", "future-algo", None), Element(" ", "alien-algo", None), Element(" ", "forbidden-algo", None)]
    ensures ElementTexts(es) == ["future-algo", " alien-algo", " forbidden-algo"]
  {
    assert ElementText(es[0]) == "future-algo";
    assert ElementText(es[1]) == " alien-algo";
    assert ElementText(es[2]) == " forbidden-algo";
  }

  lemma MultipleAlgosUnsupportedJoin()
    ensures Join(["future-algo", " alien-algo", " forbidden-algo"], [',']) == "future-algo, alien-algo, forbidden-algo"
  {
  }

  lemma MultipleAlgosUnsupportedDenotes(es: seq<Element>, prefs: seq<Preference>)
    requires es == [Element("", "future-algo", None), Element(" ", "alien-algo", None), Element(" ", "forbidden-algo", None)]
    requires prefs == [Preference("future-algo", 1000), Preference("alien-algo", 1000), Preference("forbidden-algo", 1000)]
    ensures |es| == |prefs| && forall k :: 0 <= k < |es| ==> Denotes(es[k], prefs[k])
  {
    BareElement(es[0], prefs[0]);
    BareElement(es[1], prefs[1]);
    BareElement(es[2], prefs[2]);
  }

  lemma MultipleAlgosUnsupportedHeader()
    ensures ParseHeader("future-algo, alien-algo, forbidden-algo")
            == [Preference("future-algo", 1000), Preference("alien-algo", 1000), Preference("forbidden-algo", 1000)]
  {
    var prefs := [Preference("future-algo", 1000), Preference("alien-algo", 1000), Preference("forbidden-algo", 1000)];
    var es := [Element("", "future-algo", None), Element(" ", "alien-algo", None), Element(" ", "forbidden-algo", None)];
    MultipleAlgosUnsupportedDenotes(es, prefs);
    MultipleAlgosUnsupportedTexts(es);
    MultipleAlgosUnsupportedJoin();
    HeaderParses("future-algo, alien-algo, forbidden-algo", es, prefs);
  }

  lemma MultipleAlgosUnsupportedChoice(prefs: seq<Preference>, catalog: seq<string>)
    requires prefs == [Preference("future-algo", 1000), Preference("alien-algo", 1000), Preference("forbidden-algo", 1000)]
    requires catalog == ["zstd", "br", "gzip"]
    ensures Choose(prefs, catalog) == None
  {
    NothingSupported(prefs, catalog);
  }

  /** `future-algo, alien-algo, forbidden-algo` against `[zstd, br, gzip]`:
      nothing is chosen. */
  lemma MultipleAlgosUnsupported()
    ensures Choose(ParseHeader("future-algo, alien-algo, forbidden-algo"), ["zstd", "br", "gzip"]) == None
  {
    MultipleAlgosUnsupportedChoice([Preference("future-algo", 1000), Preference("alien-algo", 1000), Preference("forbidden-algo", 1000)], ["zstd", "br", "gzip"]);
    MultipleAlgosUnsupportedHeader();
  }

  lemma MultipleAlgosWithWildcardTexts(es: seq<Element>)
    requires es == [Element("", "future-algo", None), Element(" ", "alien-algo", None), Element(" ", "forbidden-algo", None), Element(" ", "*", None)]
    ensures ElementTexts(es) == ["future-algo", " alien-algo", " forbidden-algo", " *"]
  {
    assert ElementText(es[0]) == "future-algo";
    assert ElementText(es[1]) == " alien-algo";
    assert ElementText(es[2]) == " forbidden-algo";
    assert ElementText(es[3]) == " *";
  }

  lemma MultipleAlgosWithWildcardJoin()
    ensures Join(["future-algo", " alien-algo", " forbidden-algo", " *"], [',']) == "future-algo, alien-algo, forbidden-algo, *"
  {
  }

  lemma MultipleAlgosWithWildcardDenotes(es: seq<Element>, prefs: seq<Preference>)
    requires es == [Element("", "future-algo", None), Element(" ", "alien-algo", None), Element(" ", "forbidden-algo", None), Element(" ", "*", None)]
    requires prefs == [Preference("future-algo", 1000), Preference("alien-algo", 1000), Preference("forbidden-algo", 1000), Preference("*", 1000)]
    ensures |es| == |prefs| && forall k :: 0 <= k < |es| ==> Denotes(es[k], prefs[k])
  {
    BareElement(es[0], prefs[0]);
    BareElement(es[1], prefs[1]);
    BareElement(es[2], prefs[2]);
    BareElement(es[3], prefs[3]);
  }

  lemma MultipleAlgosWithWildcardHeader()
    ensures ParseHeader("future-algo, alien-algo, forbidden-algo, *")
            == [Preference("future-algo", 1000), Preference("alien-algo", 1000), Preference("forbidden-algo", 1000), Preference("*", 1000)]
  {
    var prefs := [Preference("future-algo", 1000), Preference("alien-algo", 1000), Preference("forbidden-algo", 1000), Preference("*", 1000)];
    var es := [Element("", "future-algo", None), Element(" ", "alien-algo", None), Element(" ", "forbidden-algo", None), Element(" ", "*", None)];
    MultipleAlgosWithWildcardDenotes(es, prefs);
    MultipleAlgosWithWildcardTexts(es);
    MultipleAlgosWithWildcardJoin();
    HeaderParses("future-algo, alien-algo, forbidden-algo, *", es, prefs);
  }

  lemma MultipleAlgosWithWildcardWeights(prefs: seq<Preference>, catalog: seq<string>)
    requires prefs == [Preference("future-algo", 1000), Preference("alien-algo", 1000), Preference("forbidden-algo", 1000), Preference("*", 1000)]
    requires catalog == ["zstd", "br", "gzip"]
    ensures Weight(prefs, catalog[0]) == 0 && Weight(prefs, catalog[1]) == 0 && Weight(prefs, catalog[2]) == 0
            && !Refused(prefs, catalog[0]) && WildcardAccepted(prefs)
  {
    Unnamed(prefs, "zstd");
    Unnamed(prefs, "br");
    Unnamed(prefs, "gzip");
    NamedOnce(prefs, 3);
  }

  lemma MultipleAlgosWithWildcardChoice(prefs: seq<Preference>, catalog: seq<string>)
    requires prefs == [Preference("future-algo", 1000), Preference("alien-algo", 1000), Preference("forbidden-algo", 1000), Preference("*", 1000)]
    requires catalog == ["zstd", "br", "gzip"]
    ensures Choose(prefs, catalog) == Some("zstd")
  {
    MultipleAlgosWithWildcardWeights(prefs, catalog);
    WildcardFallback(prefs, catalog);
  }

  /** `future-algo, alien-algo, forbidden-algo, *` against
      `[zstd, br, gzip]`: only the bare wildcard matches, so the first
      catalog entry is chosen. */
  lemma MultipleAlgosWithWildcard()
    ensures Choose(ParseHeader("future-algo, alien-algo, forbidden-algo, *"), ["zstd", "br", "gzip"]) == Some("zstd")
  {
    MultipleAlgosWithWildcardChoice([Preference("future-algo", 1000), Preference("alien-algo", 1000), Preference("forbidden-algo", 1000), Preference("*", 1000)], ["zstd", "br", "gzip"]);
    MultipleAlgosWithWildcardHeader();
  }

  lemma MultipleAlgosWithDifferentQualityTexts(es: seq<Element>)
    requires es == [Element("", "zstd", Some("0.8")), Element(" ", "br", Some("0.9")), Element(" ", "gzip", Some("0.5"))]
    ensures ElementTexts(es) == ["zstd;q=0.8", " br;q=0.9", " gzip;q=0.5"]
  {
    assert ElementText(es[0]) == "zstd;q=0.8";
    assert ElementText(es[1]) == " br;q=0.9";
    assert ElementText(es[2]) == " gzip;q=0.5";
  }

  lemma MultipleAlgosWithDifferentQualityJoin()
    ensures Join(["zstd;q=0.8", " br;q=0.9", " gzip;q=0.5"], [',']) == "zstd;q=0.8, br;q=0.9, gzip;q=0.5"
  {
  }

  lemma MultipleAlgosWithDifferentQualityDenotes(es: seq<Element>, prefs: seq<Preference>)
    requires es == [Element("", "zstd", Some("0.8")), Element(" ", "br", Some("0.9")), Element(" ", "gzip", Some("0.5"))]
    requires prefs == [Preference("zstd", 800), Preference("br", 900), Preference("gzip", 500)]
    ensures |es| == |prefs| && forall k :: 0 <= k < |es| ==> Denotes(es[k], prefs[k])
  {
    WeightedElement(es[0], prefs[0]);
    WeightedElement(es[1], prefs[1]);
    WeightedElement(es[2], prefs[2]);
  }

  lemma MultipleAlgosWithDifferentQualityHeader()
    ensures ParseHeader("zstd;q=0.8, br;q=0.9, gzip;q=0.5")
            == [Preference("zstd", 800), Preference("br", 900), Preference("gzip", 500)]
  {
    var prefs := [Preference("zstd", 800), Preference("br", 900), Preference("gzip", 500)];
    var es := [Element("", "zstd", Some("0.8")), Element(" ", "br", Some("0.9")), Element(" ", "gzip", Some("0.5"))];
    MultipleAlgosWithDifferentQualityDenotes(es, prefs);
    MultipleAlgosWithDifferentQualityTexts(es);
    MultipleAlgosWithDifferentQualityJoin();
    HeaderParses("zstd;q=0.8, br;q=0.9, gzip;q=0.5", es, prefs);
  }

  lemma MultipleAlgosWithDifferentQualityWeights(prefs: seq<Preference>, catalog: seq<string>, ws: seq<int>)
    requires prefs == [Preference("zstd", 800), Preference("br", 900), Preference("gzip", 500)]
    requires catalog == ["zstd", "br", "gzip"]
    requires ws == [800, 900, 500]
    ensures WeighsAs(prefs, catalog, ws)
  {
    NamedOnce(prefs, 0);
    NamedOnce(prefs, 1);
    NamedOnce(prefs, 2);
  }

  lemma MultipleAlgosWithDifferentQualityChoice(prefs: seq<Preference>, catalog: seq<string>, ws: seq<int>)
    requires prefs == [Preference("zstd", 800), Preference("br", 900), Preference("gzip", 500)]
    requires catalog == ["zstd", "br", "gzip"]
    requires ws == [800, 900, 500]
    ensures Choose(prefs, catalog) == Some("br")
  {
    MultipleAlgosWithDifferentQualityWeights(prefs, catalog, ws);
    ChosenByWeights(prefs, catalog, ws, 1);
  }

  /** `zstd;q=0.8, br;q=0.9, gzip;q=0.5` against `[zstd, br, gzip]`: the
      highest quality wins. */
  lemma MultipleAlgosWithDifferentQuality()
    ensures Choose(ParseHeader("zstd;q=0.8, br;q=0.9, gzip;q=0.5"), ["zstd", "br", "gzip"]) == Some("br")
  {
    MultipleAlgosWithDifferentQualityChoice([Preference("zstd", 800), Preference("br", 900), Preference("gzip", 500)], ["zstd", "br", "gzip"], [800, 900, 500]);
    MultipleAlgosWithDifferentQualityHeader();
  }

  lemma MultipleAlgosWithEqualQualityTexts(es: seq<Element>)
    requires es == [Element("", "zstd", Some("0.5")), Element(" ", "br", Some("0.5")), Element(" ", "gzip", Some("0.5"))]
    ensures ElementTexts(es) == ["zstd;q=0.5", " br;q=0.5", " gzip;q=0.5"]
  {
    assert ElementText(es[0]) == "zstd;q=0.5";
    assert ElementText(es[1]) == " br;q=0.5";
    assert ElementText(es[2]) == " gzip;q=0.5";
  }

  lemma MultipleAlgosWithEqualQualityJoin()
    ensures Join(["zstd;q=0.5", " br;q=0.5", " gzip;q=0.5"], [',']) == "zstd;q=0.5, br;q=0.5, gzip;q=0.5"
  {
  }

  lemma MultipleAlgosWithEqualQualityDenotes(es: seq<Element>, prefs: seq<Preference>)
    requires es == [Element("", "zstd", Some("0.5")), Element(" ", "br", Some("0.5")), Element(" ", "gzip", Some("0.5"))]
    requires prefs == [Preference("zstd", 500), Preference("br", 500), Preference("gzip", 500)]
    ensures |es| == |prefs| && forall k :: 0 <= k < |es| ==> Denotes(es[k], prefs[k])
  {
    WeightedElement(es[0], prefs[0]);
    WeightedElement(es[1], prefs[1]);
    WeightedElement(es[2], prefs[2]);
  }

  lemma MultipleAlgosWithEqualQualityHeader()
    ensures ParseHeader("zstd;q=0.5, br;q=0.5, gzip;q=0.5")
            == [Preference("zstd", 500), Preference("br", 500), Preference("gzip", 500)]
  {
    var prefs := [Preference("zstd", 500), Preference("br", 500), Preference("gzip", 500)];
    var es := [Element("", "zstd", Some("0.5")), Element(" ", "br", Some("0.5")), Element(" ", "gzip", Some("0.5"))];
    MultipleAlgosWithEqualQualityDenotes(es, prefs);
    MultipleAlgosWithEqualQualityTexts(es);
    MultipleAlgosWithEqualQualityJoin();
    HeaderParses("zstd;q=0.5, br;q=0.5, gzip;q=0.5", es, prefs);
  }

  lemma MultipleAlgosWithEqualQualityWeights(prefs: seq<Preference>, catalog: seq<string>, ws: seq<int>)
    requires prefs == [Preference("zstd", 500), Preference("br", 500), Preference("gzip", 500)]
    requires catalog == ["gzip", "br", "zstd"]
    requires ws == [500, 500, 500]
    ensures WeighsAs(prefs, catalog, ws)
  {
    NamedOnce(prefs, 0);
    NamedOnce(prefs, 1);
    NamedOnce(prefs, 2);
  }

  lemma MultipleAlgosWithEqualQualityChoice(prefs: seq<Preference>, catalog: seq<string>, ws: seq<int>)
    requires prefs == [Preference("zstd", 500), Preference("br", 500), Preference("gzip", 500)]
    requires catalog == ["gzip", "br", "zstd"]
    requires ws == [500, 500, 500]
    ensures Choose(prefs, catalog) == Some("gzip")
  {
    MultipleAlgosWithEqualQualityWeights(prefs, catalog, ws);
    ChosenByWeights(prefs, catalog, ws, 0);
  }

  /** `zstd;q=0.5, br;q=0.5, gzip;q=0.5` against `[gzip, br, zstd]`: a
      three-way tie goes to the server's first entry. */
  lemma MultipleAlgosWithEqualQuality()
    ensures Choose(ParseHeader("zstd;q=0.5, br;q=0.5, gzip;q=0.5"), ["gzip", "br", "zstd"]) == Some("gzip")
  {
    MultipleAlgosWithEqualQualityChoice([Preference("zstd", 500), Preference("br", 500), Preference("gzip", 500)], ["gzip", "br", "zstd"], [500, 500, 500]);
    MultipleAlgosWithEqualQualityHeader();
  }

  lemma DefaultQualityIs1Texts(es: seq<Element>)
    requires es == [Element("", "deflate", None), Element(" ", "br", Some("0.999")), Element(" ", "gzip", Some("0.5"))]
    ensures ElementTexts(es) == ["deflate", " br;q=0.999", " gzip;q=0.5"]
  {
    assert ElementText(es[0]) == "deflate";
    assert ElementText(es[1]) == " br;q=0.999";
    assert ElementText(es[2]) == " gzip;q=0.5";
  }

  lemma DefaultQualityIs1Join()
    ensures Join(["deflate", " br;q=0.999", " gzip;q=0.5"], [',']) == "deflate, br;q=0.999, gzip;q=0.5"
  {
  }

  lemma DefaultQualityIs1Denotes(es: seq<Element>, prefs: seq<Preference>)
    requires es == [Element("", "deflate", None), Element(" ", "br", Some("0.999")), Element(" ", "gzip", Some("0.5"))]
    requires prefs == [Preference("deflate", 1000), Preference("br", 999), Preference("gzip", 500)]
    ensures |es| == |prefs| && forall k :: 0 <= k < |es| ==> Denotes(es[k], prefs[k])
  {
    BareElement(es[0], prefs[0]);
    WeightedElement(es[1], prefs[1]);
    WeightedElement(es[2], prefs[2]);
  }

  lemma DefaultQualityIs1Header()
    ensures ParseHeader("deflate, br;q=0.999, gzip;q=0.5")
            == [Preference("deflate", 1000), Preference("br", 999), Preference("gzip", 500)]
  {
    var prefs := [Preference("deflate", 1000), Preference("br", 999), Preference("gzip", 500)];
    var es := [Element("", "deflate", None), Element(" ", "br", Some("0.999")), Element(" ", "gzip", Some("0.5"))];
    DefaultQualityIs1Denotes(es, prefs);
    DefaultQualityIs1Texts(es);
    DefaultQualityIs1Join();
    HeaderParses("deflate, br;q=0.999, gzip;q=0.5", es, prefs);
  }

  lemma DefaultQualityIs1Weights(prefs: seq<Preference>, catalog: seq<string>, ws: seq<int>)
    requires prefs == [Preference("deflate", 1000), Preference("br", 999), Preference("gzip", 500)]
    requires catalog == ["gzip", "br", "deflate"]
    requires ws == [500, 999, 1000]
    ensures WeighsAs(prefs, catalog, ws)
  {
    NamedOnce(prefs, 0);
    NamedOnce(prefs, 1);
    NamedOnce(prefs, 2);
  }

  lemma DefaultQualityIs1Choice(prefs: seq<Preference>, catalog: seq<string>, ws: seq<int>)
    requires prefs == [Preference("deflate", 1000), Preference("br", 999), Preference("gzip", 500)]
    requires catalog == ["gzip", "br", "deflate"]
    requires ws == [500, 999, 1000]
    ensures Choose(prefs, catalog) == Some("deflate")
  {
    DefaultQualityIs1Weights(prefs, catalog, ws);
    ChosenByWeights(prefs, catalog, ws, 2);
  }

  /** `deflate, br;q=0.999, gzip;q=0.5` against `[gzip, br, deflate]`: the
      unweighted coding has quality 1, which beats 0.999. */
  lemma DefaultQualityIs1()
    ensures Choose(ParseHeader("deflate, br;q=0.999, gzip;q=0.5"), ["gzip", "br", "deflate"]) == Some("deflate")
  {
    DefaultQualityIs1Choice([Preference("deflate", 1000), Preference("br", 999), Preference("gzip", 500)], ["gzip", "br", "deflate"], [500, 999, 1000]);
    DefaultQualityIs1Header();
  }

  lemma DefaultWildcardQualityTexts(es: seq<Element>)
    requires es == [Element("", "br", Some("0.001")), Element(" ", "*", None)]
    ensures ElementTexts(es) == ["br;q=0.001", " *"]
  {
    assert ElementText(es[0]) == "br;q=0.001";
    assert ElementText(es[1]) == " *";
  }

  lemma DefaultWildcardQualityJoin()
    ensures Join(["br;q=0.001", " *"], [',']) == "br;q=0.001, *"
  {
  }

  lemma DefaultWildcardQualityDenotes(es: seq<Element>, prefs: seq<Preference>)
    requires es == [Element("", "br", Some("0.001")), Element(" ", "*", None)]
    requires prefs == [Preference("br", 1), Preference("*", 1000)]
    ensures |es| == |prefs| && forall k :: 0 <= k < |es| ==> Denotes(es[k], prefs[k])
  {
    WeightedElement(es[0], prefs[0]);
    BareElement(es[1], prefs[1]);
  }

  lemma DefaultWildcardQualityHeader()
    ensures ParseHeader("br;q=0.001, *")
            == [Preference("br", 1), Preference("*", 1000)]
  {
    var prefs := [Preference("br", 1), Preference("*", 1000)];
    var es := [Element("", "br", Some("0.001")), Element(" ", "*", None)];
    DefaultWildcardQualityDenotes(es, prefs);
    DefaultWildcardQualityTexts(es);
    DefaultWildcardQualityJoin();
    HeaderParses("br;q=0.001, *", es, prefs);
  }

  lemma DefaultWildcardQualityWeights(prefs: seq<Preference>, catalog: seq<string>, ws: seq<int>)
    requires prefs == [Preference("br", 1), Preference("*", 1000)]
    requires catalog == ["gzip", "br", "deflate"]
    requires ws == [0, 1, 0]
    ensures WeighsAs(prefs, catalog, ws)
  {
    NamedOnce(prefs, 0);
    Unnamed(prefs, "gzip");
    Unnamed(prefs, "deflate");
  }

  lemma DefaultWildcardQualityChoice(prefs: seq<Preference>, catalog: seq<string>, ws: seq<int>)
    requires prefs == [Preference("br", 1), Preference("*", 1000)]
    requires catalog == ["gzip", "br", "deflate"]
    requires ws == [0, 1, 0]
    ensures Choose(prefs, catalog) == Some("br")
  {
    DefaultWildcardQualityWeights(prefs, catalog, ws);
    ChosenByWeights(prefs, catalog, ws, 1);
  }

  /** `br;q=0.001, *` against `[gzip, br, deflate]`: a bare wildcard never
      displaces a named coding, however low its quality. */
  lemma DefaultWildcardQuality()
    ensures Choose(ParseHeader("br;q=0.001, *"), ["gzip", "br", "deflate"]) == Some("br")
  {
    DefaultWildcardQualityChoice([Preference("br", 1), Preference("*", 1000)], ["gzip", "br", "deflate"], [0, 1, 0]);
    DefaultWildcardQualityHeader();
  }

  /** `COMPRESS_ALGORITHM = 'gzip'` gives the catalog `[gzip]`. */
  lemma SettingSimpleString()
    ensures EnabledAlgorithms(AsString("gzip")) == ["gzip"]
  {
    SingleNameSetting("gzip");
  }

  lemma SettingCommaSeparatedPieces(text: string)
    requires text == "gzip, br, zstd"
    ensures Split(text, ',') == ["gzip", " br", " zstd"]
  {
    var pieces := ["gzip", " br", " zstd"];
    assert Join(pieces, [',']) == text;
    SplitJoin(pieces, ',');
  }

  /** A name after one space trims to the name. */
  lemma SpacedName(piece: string, name: string)
    requires piece == " " + name && IsTrimmed(name)
    ensures Trim(piece) == name
  {
    TrimDropsLeadingSpace(" ", name);
  }

  lemma SettingCommaSeparatedTrims(pieces: seq<string>, names: seq<string>)
    requires pieces == ["gzip", " br", " zstd"] && names == ["gzip", "br", "zstd"]
    ensures |pieces| == |names| && forall k :: 0 <= k < |names| ==> Trim(pieces[k]) == names[k]
  {
    TrimOfTrimmed(pieces[0]);
    SpacedName(pieces[1], names[1]);
    SpacedName(pieces[2], names[2]);
  }

  lemma SettingFromPieces(text: string, pieces: seq<string>, names: seq<string>)
    requires Split(text, ',') == pieces && |pieces| == |names|
    requires forall k :: 0 <= k < |names| ==> Trim(pieces[k]) == names[k]
    ensures EnabledAlgorithms(AsString(text)) == names
  {
  }

  lemma SettingCommaSeparatedOf(text: string, pieces: seq<string>, names: seq<string>)
    requires text == "gzip, br, zstd" && pieces == ["gzip", " br", " zstd"]
    requires names == ["gzip", "br", "zstd"]
    ensures EnabledAlgorithms(AsString(text)) == names
  {
    SettingCommaSeparatedPieces(text);
    SettingCommaSeparatedTrims(pieces, names);
    SettingFromPieces(text, pieces, names);
  }

  /** `COMPRESS_ALGORITHM = 'gzip, br, zstd'` gives `[gzip, br, zstd]`. */
  lemma SettingCommaSeparatedString()
    ensures EnabledAlgorithms(AsString("gzip, br, zstd")) == ["gzip", "br", "zstd"]
  {
    SettingCommaSeparatedOf("gzip, br, zstd", ["gzip", " br", " zstd"], ["gzip", "br", "zstd"]);
  }

  /** `COMPRESS_ALGORITHM = ['gzip', 'br', 'deflate']` is kept as it is. */
  lemma SettingList()
    ensures EnabledAlgorithms(AsList(["gzip", "br", "deflate"])) == ["gzip", "br", "deflate"]
  {
  }
}
