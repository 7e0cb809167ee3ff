/** The `Accept-Encoding` request header (section 12.5.3 of RFC 9110): a
    comma-separated list of content-codings, each optionally weighted with
    `;q=<qvalue>`, for example `deflate, br;q=0.999, gzip;q=0.5`. */
module AcceptEncoding {
  import opened Wrappers
  import opened Text
  import opened QValue

  /** One list element: a content-coding and the client's weight for it. */
  datatype Preference = Preference(coding: string, quality: Quality)

  /** A content-coding as it comes out of the parser: non-empty, without
      surrounding white space, and free of the list and parameter
      delimiters. */
  predicate IsCoding(c: string) {
    |c| > 0 && IsTrimmed(c) && ',' !in c && ';' !in c
  }

  function IndexOf(s: string, c: char): (i: nat)
    requires c in s
    ensures i < |s| && s[i] == c && c !in s[..i]
  {
    if s[0] == c then 0
    else
      assert c in s[1..] by { assert s == [s[0]] + s[1..]; }
      var i := IndexOf(s[1..], c) + 1;
      assert s[..i] == [s[0]] + s[1..][..i - 1];
      i
  }

  /** Parses one list element. An empty element (allowed by the list
      syntax) gives None, and so does an element whose text after its first
      `;` is not a weight `q=<qvalue>`. A coding without `;` gets the
      default quality 1.0. */
  function ParseItem(item: string): (r: Option<Preference>)
    ensures Trim(item) == "" ==> r.None?
    ensures r.Some? ==> |r.value.coding| > 0 && IsTrimmed(r.value.coding) && ';' !in r.value.coding
    ensures r.Some? && ',' !in item ==> ',' !in r.value.coding
  {
    var t := Trim(item);
    if |t| == 0 then None
    else if ';' !in t then Some(Preference(t, DefaultQuality))
    else
      var i := IndexOf(t, ';');
      var coding := Trim(t[..i]);
      assert ',' !in item ==> ',' !in coding by {
        if ',' !in item {
          PrefixOfTrimHasNoComma(item, i);
        }
      }
      ParseWeighted(coding, Trim(t[i + 1..]))
  }

  lemma PrefixOfTrimHasNoComma(item: string, i: nat)
    requires ',' !in item && i <= |Trim(item)|
    ensures ',' !in Trim(Trim(item)[..i])
  {
    var t := Trim(item);
    if ',' in Trim(t[..i]) {
      TrimKeepsChars(t[..i], ',');
      InSlice(t, 0, i, ',');
      TrimKeepsChars(item, ',');
    }
  }

  /** A coding and the text that followed its `;`. The Accept-Encoding
      syntax (section 12.5.3 of RFC 9110) allows only a weight there, so
      any other text, such as a second parameter, makes the element
      malformed. */
  function ParseWeighted(coding: string, weight: string): (r: Option<Preference>)
    ensures r.Some? ==> r.value.coding == coding
    ensures r.Some? <==> |coding| > 0 && |weight| >= 2 && weight[..2] == "q=" && ParseQValue(weight[2..]).Some?
  {
    if |coding| == 0 || |weight| < 2 || weight[..2] != "q=" then None
    else
      match ParseQValue(weight[2..])
      case Some(q) => Some(Preference(coding, q))
      case None => None
  }

  /** Parses every element of an already split list, in order, dropping
      the ones `ParseItem` rejects. */
  function ParseItems(items: seq<string>): (r: seq<Preference>)
    requires forall k :: 0 <= k < |items| ==> ',' !in items[k]
    ensures |r| <= |items|
    ensures forall k :: 0 <= k < |r| ==> IsCoding(r[k].coding)
    decreases |items|
  {
    if |items| == 0 then []
    else
      var rest := ParseItems(items[1..]);
      var head := ParseItem(items[0]);
      if head.None? then rest
      else
        var r := [head.value] + rest;
        assert IsCoding(r[0].coding) && r[1..] == rest;
        r
  }

  /** The preferences of a header value, in the client's order. A blank
      header (including an absent one, read as "") holds none. */
  function ParseHeader(header: string): (r: seq<Preference>)
    ensures forall k :: 0 <= k < |r| ==> IsCoding(r[k].coding)
    ensures Trim(header) == "" ==> r == []
  {
    var items := Split(header, ',');
    assert Trim(header) == "" ==> items == [header] by {
      if Trim(header) == "" {
        BlankHasNoComma(header);
        SplitJoin([header], ',');
      }
    }
    ParseItems(items)
  }

  lemma BlankHasNoComma(s: string)
    requires Trim(s) == ""
    ensures ',' !in s
  {
    BlankIsSpace(s);
  }

  /** A header written as separate elements is parsed element by element. */
  lemma HeaderOfItems(items: seq<string>)
    requires |items| >= 1
    requires forall k :: 0 <= k < |items| ==> ',' !in items[k]
    ensures ParseHeader(Join(items, [','])) == ParseItems(items)
  {
    SplitJoin(items, ',');
  }

  /** Parsing elements that each parse to a preference gives exactly those
      preferences. */
  lemma {:induction false} ItemsParse(items: seq<string>, prefs: seq<Preference>)
    requires forall k :: 0 <= k < |items| ==> ',' !in items[k]
    requires |items| == |prefs|
    requires forall k :: 0 <= k < |items| ==> ParseItem(items[k]) == Some(prefs[k])
    ensures ParseItems(items) == prefs
  {
    if |items| > 0 {
      ItemsParse(items[1..], prefs[1..]);
      assert prefs == [prefs[0]] + prefs[1..];
    }
  }

  /** A coding with no weight has the default quality 1.0, wherever it
      stands in the list. */
  lemma DefaultQualityIsOne(pad: string, coding: string)
    requires forall k :: 0 <= k < |pad| ==> IsSpace(pad[k])
    requires IsCoding(coding)
    ensures ParseItem(pad + coding) == Some(Preference(coding, DefaultQuality))
  {
    TrimDropsLeadingSpace(pad, coding);
  }

  /** A header naming a single coding with no weight. */
  lemma SingleCodingHeader(coding: string)
    requires IsCoding(coding)
    ensures ParseHeader(coding) == [Preference(coding, DefaultQuality)]
  {
    TrimOfTrimmed(coding);
    assert ParseItem(coding) == Some(Preference(coding, DefaultQuality));
    HeaderOfItems([coding]);
    ItemsParse([coding], [Preference(coding, DefaultQuality)]);
  }

  /** A coding weighted `;q=<qvalue>` has exactly the quality the qvalue
      spells. */
  lemma WeightedItem(pad: string, coding: string, qvalue: string)
    requires forall k :: 0 <= k < |pad| ==> IsSpace(pad[k])
    requires IsCoding(coding)
    requires ParseQValue(qvalue).Some?
    ensures ParseItem(pad + coding + ";q=" + qvalue) == Some(Preference(coding, ParseQValue(qvalue).value))
  {
    var weight := "q=" + qvalue;
    assert pad + coding + ";q=" + qvalue == pad + (coding + ";" + weight);
    assert IsTrimmed(weight) by {
      assert weight[|weight| - 1] == qvalue[|qvalue| - 1];
    }
    PaddedWeightedItem(pad, coding, weight);
    assert weight[..2] == "q=" && weight[2..] == qvalue;
  }

  /** `coding;q=0` has quality 0: the client refuses that coding. */
  lemma ZeroWeightItem(pad: string, coding: string, zero: string)
    requires forall k :: 0 <= k < |pad| ==> IsSpace(pad[k])
    requires IsCoding(coding)
    requires zero == "0"
    ensures ParseItem(pad + coding + ";q=" + zero) == Some(Preference(coding, 0))
  {
    WeightedItem(pad, coding, zero);
  }

  lemma PaddedWeightedItem(pad: string, coding: string, weight: string)
    requires forall k :: 0 <= k < |pad| ==> IsSpace(pad[k])
    requires IsCoding(coding)
    requires |weight| > 0 && IsTrimmed(weight)
    ensures ParseItem(pad + (coding + ";" + weight)) == ParseWeighted(coding, weight)
  {
    var text := coding + ";" + weight;
    assert IsTrimmed(text) by {
      assert text[0] == coding[0];
      assert text[|text| - 1] == weight[|weight| - 1];
    }
    TrimDropsLeadingSpace(pad, text);
    SplitAtSemicolon(coding, weight);
    TrimOfTrimmed(coding);
    TrimOfTrimmed(weight);
  }

  /** An element whose text after the `;` is not a weight is dropped,
      whether that text is another parameter or a weight followed by one. */
  lemma OtherParameterDropsItem(pad: string, coding: string, weight: string)
    requires forall k :: 0 <= k < |pad| ==> IsSpace(pad[k])
    requires IsCoding(coding)
    requires |weight| > 0 && IsTrimmed(weight)
    requires !(|weight| >= 2 && weight[..2] == "q=" && ParseQValue(weight[2..]).Some?)
    ensures ParseItem(pad + (coding + ";" + weight)) == None
  {
    PaddedWeightedItem(pad, coding, weight);
  }

  /** `gzip;level=1` is malformed: `level` is not a weight. */
  lemma OtherParameterExample(coding: string, other: string)
    requires coding == "gzip" && other == "level=1"
    ensures ParseItem(coding + ";" + other) == None
  {
    assert IsCoding(coding) by {
      assert coding[0] == 'g' && coding[3] == 'p';
    }
    assert other[0] == 'l' && other[6] == '1';
    assert "" + (coding + ";" + other) == coding + ";" + other;
    OtherParameterDropsItem("", coding, other);
  }

  /** `gzip;q=0.5;level=1` is malformed: a parameter follows the weight. */
  lemma TrailingParameterExample(coding: string, weighted: string)
    requires coding == "gzip" && weighted == "q=0.5;level=1"
    ensures ParseItem(coding + ";" + weighted) == None
  {
    assert IsCoding(coding) by {
      assert coding[0] == 'g' && coding[3] == 'p';
    }
    assert weighted[0] == 'q' && weighted[12] == '1';
    NotAQValue(weighted[2..], 3);
    assert "" + (coding + ";" + weighted) == coding + ";" + weighted;
    OtherParameterDropsItem("", coding, weighted);
  }

  lemma NotAQValue(s: string, i: nat)
    requires i < |s| && !IsDigit(s[i]) && s[i] != '.'
    ensures ParseQValue(s).None?
  {
  }

  lemma SplitAtSemicolon(coding: string, weight: string)
    requires ';' !in coding
    ensures ';' in coding + ";" + weight
    ensures IndexOf(coding + ";" + weight, ';') == |coding|
    ensures (coding + ";" + weight)[..|coding|] == coding
    ensures (coding + ";" + weight)[|coding| + 1..] == weight
  {
    var text := coding + ";" + weight;
    assert text[|coding|] == ';';
  }

  /** Writes one preference as `coding;q=<qvalue>`. */
  function RenderItem(p: Preference): string {
    p.coding + ";q=" + FormatQValue(p.quality)
  }

  lemma RenderedItem(pad: string, p: Preference)
    requires pad == "" || pad == " "
    requires IsCoding(p.coding)
    ensures ',' !in pad + RenderItem(p)
    ensures ParseItem(pad + RenderItem(p)) == Some(p)
  {
    var q := FormatQValue(p.quality);
    assert pad + RenderItem(p) == pad + p.coding + ";q=" + q;
    RenderedItemHasNoComma(pad, p.coding, q);
    ParseFormat(p.quality);
    WeightedItem(pad, p.coding, q);
  }

  lemma RenderedItemHasNoComma(pad: string, coding: string, q: string)
    requires ',' !in pad && ',' !in coding
    requires forall k :: 0 <= k < |q| ==> IsDigit(q[k]) || q[k] == '.'
    ensures ',' !in pad + coding + ";q=" + q
  {
    assert ',' !in q;
  }

  /** The list elements of a rendered header: every element after the
      first is preceded by a space, as in `gzip;q=1, br;q=0.500`. */
  function RenderItems(prefs: seq<Preference>): (items: seq<string>)
    ensures |items| == |prefs|
  {
    seq(|prefs|, k requires 0 <= k < |prefs| => (if k == 0 then "" else " ") + RenderItem(prefs[k]))
  }

  /** Writes a preference list as a header value. */
  function RenderHeader(prefs: seq<Preference>): string {
    Join(RenderItems(prefs), [','])
  }

  /** Parsing a rendered header gives back the preference list. */
  lemma ParseRender(prefs: seq<Preference>)
    requires forall k :: 0 <= k < |prefs| ==> IsCoding(prefs[k].coding)
    ensures ParseHeader(RenderHeader(prefs)) == prefs
  {
    var items := RenderItems(prefs);
    if |prefs| > 0 {
      forall k | 0 <= k < |items|
        ensures ',' !in items[k]
        ensures ParseItem(items[k]) == Some(prefs[k])
      {
        var pad := if k == 0 then "" else " ";
        assert items[k] == pad + RenderItem(prefs[k]);
        RenderedItem(pad, prefs[k]);
      }
      HeaderOfItems(items);
      ItemsParse(items, prefs);
    }
  }
}
