/** Choosing the response's content-coding from the client's
    `Accept-Encoding` preferences and the server's catalog
    (`_choose_compress_algorithm`).

    The rules, in order:
    - a catalog entry the client names with a nonzero quality is a
      candidate; the candidate with the highest quality wins, and among
      equally good candidates the one earliest in the catalog wins (client
      order plays no part);
    - only when there is no candidate does a wildcard `*` with nonzero
      quality (a bare `*` included) select a coding: the first catalog
      entry the client has not refused;
    - otherwise nothing is chosen and the response is sent uncompressed.

    A coding named with quality 0 is refused, as section 12.4.2 of RFC 9110
    says ("not acceptable"), and the wildcard does not bring it back. */
module Negotiation {
  import opened Wrappers
  import opened QValue
  import opened AcceptEncoding

  const Wildcard: string := "*"

  /** The highest quality the client gives `coding` by name; None when the
      client never names it. A coding named twice keeps its better
      quality. */
  function QualityOf(prefs: seq<Preference>, coding: string): (r: Option<Quality>)
    ensures r.None? <==> forall k :: 0 <= k < |prefs| ==> prefs[k].coding != coding
    ensures r.Some? ==> exists k :: 0 <= k < |prefs| && prefs[k].coding == coding && prefs[k].quality == r.value
    ensures r.Some? ==> forall k :: 0 <= k < |prefs| && prefs[k].coding == coding ==> prefs[k].quality <= r.value
  {
    if |prefs| == 0 then None
    else
      var rest := QualityOf(prefs[1..], coding);
      assert forall k :: 1 <= k < |prefs| ==> prefs[k] == prefs[1..][k - 1];
      if prefs[0].coding != coding then rest
      else
        match rest
        case None => Some(prefs[0].quality)
        case Some(q) => Some(if q < prefs[0].quality then prefs[0].quality else q)
  }

  /** How much the client wants the catalog entry `coding` for itself: its
      named quality, 0 when unnamed. The wildcard is never a candidate in
      its own right. */
  function Weight(prefs: seq<Preference>, coding: string): Quality {
    if coding == Wildcard then 0 else QualityOf(prefs, coding).GetOr(0)
  }

  /** The client named `coding` and gave it quality 0 and nothing better. */
  predicate Refused(prefs: seq<Preference>, coding: string) {
    QualityOf(prefs, coding) == Some(0)
  }

  /** The client sent a wildcard with a nonzero quality. */
  predicate WildcardAccepted(prefs: seq<Preference>) {
    QualityOf(prefs, Wildcard).GetOr(0) > 0
  }

  /** Catalog entry `k` is the one a quality comparison selects: a
      candidate, at least as wanted as every entry, and strictly more wanted
      than every entry before it. */
  ghost predicate IsBestAt(prefs: seq<Preference>, catalog: seq<string>, k: int) {
    && 0 <= k < |catalog|
    && Weight(prefs, catalog[k]) > 0
    && (forall j :: 0 <= j < |catalog| ==> Weight(prefs, catalog[j]) <= Weight(prefs, catalog[k]))
    && (forall j :: 0 <= j < k ==> Weight(prefs, catalog[j]) < Weight(prefs, catalog[k]))
  }

  /** Catalog entry `k` is the first one the client has not refused. */
  ghost predicate IsFallbackAt(prefs: seq<Preference>, catalog: seq<string>, k: int) {
    && 0 <= k < |catalog|
    && !Refused(prefs, catalog[k])
    && (forall j :: 0 <= j < k ==> Refused(prefs, catalog[j]))
  }

  ghost predicate HasCandidate(prefs: seq<Preference>, catalog: seq<string>) {
    exists k :: 0 <= k < |catalog| && Weight(prefs, catalog[k]) > 0
  }

  ghost predicate HasUnrefused(prefs: seq<Preference>, catalog: seq<string>) {
    exists k :: 0 <= k < |catalog| && !Refused(prefs, catalog[k])
  }

  /** The negotiation rules stated declaratively: `r` is a correct outcome
      for these preferences and this catalog. */
  ghost predicate IsChoice(prefs: seq<Preference>, catalog: seq<string>, r: Option<string>) {
    if HasCandidate(prefs, catalog) then
      exists k :: IsBestAt(prefs, catalog, k) && r == Some(catalog[k])
    else if WildcardAccepted(prefs) && HasUnrefused(prefs, catalog) then
      exists k :: IsFallbackAt(prefs, catalog, k) && r == Some(catalog[k])
    else
      r == None
  }

  /** The rules leave no freedom: at most one outcome satisfies them. */
  lemma ChoiceIsUnique(prefs: seq<Preference>, catalog: seq<string>, r1: Option<string>, r2: Option<string>)
    requires IsChoice(prefs, catalog, r1) && IsChoice(prefs, catalog, r2)
    ensures r1 == r2
  {
    if HasCandidate(prefs, catalog) {
      var k1 :| IsBestAt(prefs, catalog, k1) && r1 == Some(catalog[k1]);
      var k2 :| IsBestAt(prefs, catalog, k2) && r2 == Some(catalog[k2]);
      assert k1 == k2;
    } else if WildcardAccepted(prefs) && HasUnrefused(prefs, catalog) {
      var k1 :| IsFallbackAt(prefs, catalog, k1) && r1 == Some(catalog[k1]);
      var k2 :| IsFallbackAt(prefs, catalog, k2) && r2 == Some(catalog[k2]);
      assert k1 == k2;
    }
  }

  /** Index of the first largest entry of `ws`, provided it is positive. */
  function ArgMax(ws: seq<int>): (r: Option<nat>)
    ensures r.None? <==> forall j :: 0 <= j < |ws| ==> ws[j] <= 0
    ensures r.Some? ==> r.value < |ws| && ws[r.value] > 0
    ensures r.Some? ==> forall j :: 0 <= j < |ws| ==> ws[j] <= ws[r.value]
    ensures r.Some? ==> forall j :: 0 <= j < r.value ==> ws[j] < ws[r.value]
    decreases |ws|
  {
    if |ws| == 0 then None
    else
      var rest := ArgMax(ws[1..]);
      assert forall j :: 1 <= j < |ws| ==> ws[j] == ws[1..][j - 1];
      match rest
      case None =>
        if ws[0] > 0 then Some(0) else None
      case Some(k) =>
        if ws[0] >= ws[k + 1] then Some(0) else Some(k + 1)
  }

  /** Index of the most wanted candidate, earliest in the catalog on ties;
      None when no entry is a candidate. */
  function Best(prefs: seq<Preference>, catalog: seq<string>): (r: Option<nat>)
    ensures r.None? <==> !HasCandidate(prefs, catalog)
    ensures r.Some? ==> IsBestAt(prefs, catalog, r.value)
  {
    var ws := seq(|catalog|, j requires 0 <= j < |catalog| => Weight(prefs, catalog[j]) as int);
    var r := ArgMax(ws);
    WeightsTable(prefs, catalog, ws, r);
    r
  }

  lemma WeightsTable(prefs: seq<Preference>, catalog: seq<string>, ws: seq<int>, r: Option<nat>)
    requires |ws| == |catalog| && forall j :: 0 <= j < |ws| ==> ws[j] == Weight(prefs, catalog[j])
    requires r == ArgMax(ws)
    ensures r.None? <==> !HasCandidate(prefs, catalog)
    ensures r.Some? ==> IsBestAt(prefs, catalog, r.value)
  {
    if HasCandidate(prefs, catalog) {
      var k :| 0 <= k < |catalog| && Weight(prefs, catalog[k]) > 0;
      assert ws[k] > 0;
    }
  }

  /** Index of the first catalog entry the client has not refused. */
  function FirstUnrefused(prefs: seq<Preference>, catalog: seq<string>): (r: Option<nat>)
    ensures r.None? <==> !HasUnrefused(prefs, catalog)
    ensures r.Some? ==> IsFallbackAt(prefs, catalog, r.value)
    decreases |catalog|
  {
    if |catalog| == 0 then None
    else if !Refused(prefs, catalog[0]) then Some(0)
    else
      assert forall j :: 1 <= j < |catalog| ==> catalog[j] == catalog[1..][j - 1];
      match FirstUnrefused(prefs, catalog[1..])
      case None => None
      case Some(k) => Some(k + 1)
  }

  /** The negotiated coding, or None for "send the body uncompressed". The
      outcome is always a catalog entry, follows the rules above, and a
      client that sends no preferences gets None. */
  function Choose(prefs: seq<Preference>, catalog: seq<string>): (r: Option<string>)
    ensures r.Some? ==> r.value in catalog
    ensures IsChoice(prefs, catalog, r)
    ensures |prefs| == 0 ==> r.None?
  {
    match Best(prefs, catalog)
    case Some(k) => Some(catalog[k])
    case None =>
      if WildcardAccepted(prefs) then
        match FirstUnrefused(prefs, catalog)
        case Some(k) => Some(catalog[k])
        case None => None
      else None
  }

  /** A coding the client names once has exactly the quality it was
      given. */
  lemma NamedOnce(prefs: seq<Preference>, k: int)
    requires 0 <= k < |prefs|
    requires forall j :: 0 <= j < |prefs| && j != k ==> prefs[j].coding != prefs[k].coding
    ensures QualityOf(prefs, prefs[k].coding) == Some(prefs[k].quality)
    ensures prefs[k].coding != Wildcard ==> Weight(prefs, prefs[k].coding) == prefs[k].quality
  {
  }

  /** A coding the client does not name weighs nothing and is not
      refused. */
  lemma Unnamed(prefs: seq<Preference>, coding: string)
    requires forall j :: 0 <= j < |prefs| ==> prefs[j].coding != coding
    ensures Weight(prefs, coding) == 0 && !Refused(prefs, coding)
  {
  }

  /** The entry a quality comparison selects is the outcome. */
  lemma BestIsChosen(prefs: seq<Preference>, catalog: seq<string>, k: int)
    requires IsBestAt(prefs, catalog, k)
    ensures Choose(prefs, catalog) == Some(catalog[k])
  {
    ChoiceIsUnique(prefs, catalog, Choose(prefs, catalog), Some(catalog[k]));
  }

  /** A catalog entry the client names with a nonzero quality guarantees
      that a named candidate wins, one at least as wanted: neither the
      wildcard nor a less wanted entry can take its place. */
  lemma HighestQualityWins(prefs: seq<Preference>, catalog: seq<string>, k: int)
    requires 0 <= k < |catalog| && Weight(prefs, catalog[k]) > 0
    ensures Choose(prefs, catalog).Some?
    ensures Weight(prefs, Choose(prefs, catalog).value) >= Weight(prefs, catalog[k]) > 0
  {
    var r := Choose(prefs, catalog);
    assert HasCandidate(prefs, catalog);
    var b :| IsBestAt(prefs, catalog, b) && r == Some(catalog[b]);
  }

  /** When every candidate is equally wanted, the first candidate in the
      catalog wins, whatever order the client listed them in. */
  lemma TiesGoToServerOrder(prefs: seq<Preference>, catalog: seq<string>, k: int)
    requires 0 <= k < |catalog| && Weight(prefs, catalog[k]) > 0
    requires forall j :: 0 <= j < k ==> Weight(prefs, catalog[j]) == 0
    requires forall j :: 0 <= j < |catalog| ==> Weight(prefs, catalog[j]) in {0, Weight(prefs, catalog[k])}
    ensures Choose(prefs, catalog) == Some(catalog[k])
  {
    assert IsBestAt(prefs, catalog, k);
    ChoiceIsUnique(prefs, catalog, Choose(prefs, catalog), Some(catalog[k]));
  }

  /** When the client names exactly one catalog entry with a nonzero
      quality, that entry is chosen, wherever it stands in the catalog. */
  lemma SingleCandidateChosen(prefs: seq<Preference>, catalog: seq<string>, k: int)
    requires 0 <= k < |catalog| && Weight(prefs, catalog[k]) > 0
    requires forall j :: 0 <= j < |catalog| && Weight(prefs, catalog[j]) > 0 ==> catalog[j] == catalog[k]
    ensures Choose(prefs, catalog) == Some(catalog[k])
  {
    HighestQualityWins(prefs, catalog, k);
    var r := Choose(prefs, catalog);
    assert r.value in catalog;
    var b :| 0 <= b < |catalog| && catalog[b] == r.value;
  }

  /** A client that names only codings outside the catalog, and no
      wildcard, gets no compression. */
  lemma NothingSupported(prefs: seq<Preference>, catalog: seq<string>)
    requires forall k :: 0 <= k < |prefs| ==> prefs[k].coding !in catalog && prefs[k].coding != Wildcard
    ensures Choose(prefs, catalog) == None
  {
    forall j | 0 <= j < |catalog| ensures Weight(prefs, catalog[j]) == 0 {
      assert QualityOf(prefs, catalog[j]).None?;
    }
    assert QualityOf(prefs, Wildcard).None?;
  }

  /** Without any candidate, an accepted wildcard (a bare `*` included)
      selects the first catalog entry, unless the client refused it. */
  lemma WildcardFallback(prefs: seq<Preference>, catalog: seq<string>)
    requires |catalog| > 0 && !Refused(prefs, catalog[0])
    requires forall j :: 0 <= j < |catalog| ==> Weight(prefs, catalog[j]) == 0
    requires WildcardAccepted(prefs)
    ensures Choose(prefs, catalog) == Some(catalog[0])
  {
    assert IsFallbackAt(prefs, catalog, 0);
    ChoiceIsUnique(prefs, catalog, Choose(prefs, catalog), Some(catalog[0]));
  }

  /** The best quality named for a coding depends only on which
      preferences were sent, not on their order or repetition. */
  lemma QualityOfIgnoresOrder(p1: seq<Preference>, p2: seq<Preference>, coding: string)
    requires forall p :: p in p1 <==> p in p2
    ensures QualityOf(p1, coding) == QualityOf(p2, coding)
  {
    QualityOfBelow(p1, p2, coding);
    QualityOfBelow(p2, p1, coding);
  }

  lemma QualityOfBelow(p1: seq<Preference>, p2: seq<Preference>, coding: string)
    requires forall p :: p in p1 ==> p in p2
    ensures QualityOf(p1, coding).Some? ==>
              QualityOf(p2, coding).Some? && QualityOf(p1, coding).value <= QualityOf(p2, coding).value
  {
    var r1, r2 := QualityOf(p1, coding), QualityOf(p2, coding);
    if r1.Some? {
      var k1 :| 0 <= k1 < |p1| && p1[k1].coding == coding && p1[k1].quality == r1.value;
      assert p1[k1] in p2;
      var m :| 0 <= m < |p2| && p2[m] == p1[k1];
      assert p2[m].coding == coding;
    }
  }

  /** The outcome depends only on which preferences the client sent, never
      on the order it listed them in. */
  lemma ClientOrderIsIrrelevant(p1: seq<Preference>, p2: seq<Preference>, catalog: seq<string>)
    requires forall p :: p in p1 <==> p in p2
    ensures Choose(p1, catalog) == Choose(p2, catalog)
  {
    forall c | true
      ensures QualityOf(p1, c) == QualityOf(p2, c)
    {
      QualityOfIgnoresOrder(p1, p2, c);
    }
    var r := Choose(p1, catalog);
    SameQualitiesSameChoice(p1, p2, catalog, r);
    ChoiceIsUnique(p2, catalog, r, Choose(p2, catalog));
  }

  lemma SameQualitiesSameChoice(p1: seq<Preference>, p2: seq<Preference>, catalog: seq<string>, r: Option<string>)
    requires forall c :: QualityOf(p1, c) == QualityOf(p2, c)
    requires IsChoice(p1, catalog, r)
    ensures IsChoice(p2, catalog, r)
  {
    SameQualitiesSameRules(p1, p2, catalog);
  }

  lemma SameQualitiesSameRules(p1: seq<Preference>, p2: seq<Preference>, catalog: seq<string>)
    requires forall c :: QualityOf(p1, c) == QualityOf(p2, c)
    ensures WildcardAccepted(p1) == WildcardAccepted(p2)
    ensures forall k :: IsBestAt(p1, catalog, k) == IsBestAt(p2, catalog, k)
    ensures forall k :: IsFallbackAt(p1, catalog, k) == IsFallbackAt(p2, catalog, k)
    ensures HasCandidate(p1, catalog) == HasCandidate(p2, catalog)
    ensures HasUnrefused(p1, catalog) == HasUnrefused(p2, catalog)
  {
    assert forall c :: Weight(p1, c) == Weight(p2, c);
    assert forall c :: Refused(p1, c) == Refused(p2, c);
  }

  /** `_choose_compress_algorithm(accept_encoding)`: parses the header and
      negotiates against the catalog. */
  method ChooseCompressAlgorithm(acceptEncoding: string, catalog: seq<string>) returns (chosen: Option<string>)
    ensures IsChoice(ParseHeader(acceptEncoding), catalog, chosen)
    ensures chosen == Choose(ParseHeader(acceptEncoding), catalog)
  {
    chosen := Negotiate(ParseHeader(acceptEncoding), catalog);
  }

  /** One pass over the catalog keeping the best candidate seen so far. */
  method ScanBest(prefs: seq<Preference>, catalog: seq<string>) returns (best: Option<nat>)
    ensures best.None? <==> !HasCandidate(prefs, catalog)
    ensures best.Some? ==> IsBestAt(prefs, catalog, best.value)
    ensures best == Best(prefs, catalog)
  {
    var at := 0;
    var top: Quality := 0;
    var i := 0;
    while i < |catalog|
      invariant 0 <= i <= |catalog|
      invariant top > 0 ==> at < i && top == Weight(prefs, catalog[at])
      invariant forall j :: 0 <= j < i ==> Weight(prefs, catalog[j]) <= top
      invariant top > 0 ==> forall j :: 0 <= j < at ==> Weight(prefs, catalog[j]) < top
    {
      var w := Weight(prefs, catalog[i]);
      if w > top {
        at, top := i, w;
      }
      i := i + 1;
    }
    best := if top > 0 then Some(at) else None;
  }

  /** The first catalog entry the client has not refused, by a linear
      search. */
  method ScanFallback(prefs: seq<Preference>, catalog: seq<string>) returns (first: Option<nat>)
    ensures first.None? <==> !HasUnrefused(prefs, catalog)
    ensures first.Some? ==> IsFallbackAt(prefs, catalog, first.value)
    ensures first == FirstUnrefused(prefs, catalog)
  {
    var j := 0;
    while j < |catalog| && Refused(prefs, catalog[j])
      invariant 0 <= j <= |catalog|
      invariant forall m :: 0 <= m < j ==> Refused(prefs, catalog[m])
    {
      j := j + 1;
    }
    first := if j < |catalog| then Some(j) else None;
  }

  /** The best candidate, then the wildcard fallback. Agrees with `Choose`
      on every input. */
  method Negotiate(prefs: seq<Preference>, catalog: seq<string>) returns (chosen: Option<string>)
    ensures IsChoice(prefs, catalog, chosen)
    ensures chosen == Choose(prefs, catalog)
  {
    var best := ScanBest(prefs, catalog);
    if best.Some? {
      chosen := Some(catalog[best.value]);
    } else if WildcardAccepted(prefs) {
      var first := ScanFallback(prefs, catalog);
      chosen := if first.Some? then Some(catalog[first.value]) else None;
    } else {
      chosen := None;
    }
    ChoiceIsUnique(prefs, catalog, chosen, Choose(prefs, catalog));
  }
}
