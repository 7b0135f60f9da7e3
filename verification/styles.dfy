/** Keyword style matching (`get_keyword_styles`) and the default colormap
    chosen from its answer (`assign_colormaps`). A style goes with a layer when
    both names, lowered, contain the same word of a fixed vocabulary. */
module Styles {
  import opened Text

  /** The vocabulary shared by style names and layer names. */
  const Keywords: seq<string> := ["depth", "density", "swe", "dem", "veg", "height", "mask"]

  /** Offered to every layer whenever the server has it. */
  const DynamicDefault: string := "dynamic_default"

  /** The fallback default style of a raster layer. */
  const Raster: string := "raster"

  /** key occurs in both the lowered style name and the lowered layer name. */
  predicate MatchesKeyword(key: string, style: string, layerName: string)
  {
    Contains(Lower(style), key) && Contains(Lower(layerName), key)
  }

  /** Some keyword of the vocabulary links the style to the layer. */
  ghost predicate SharesKeyword(style: string, layerName: string)
  {
    exists k :: k in Keywords && MatchesKeyword(k, style, layerName)
  }

  /** The available styles that match one keyword, in availability order. */
  function MatchingStyles(key: string, avail: seq<string>, layerName: string): seq<string>
    decreases |avail|
  {
    if |avail| == 0 then []
    else
      var style := avail[|avail| - 1];
      MatchingStyles(key, avail[..|avail| - 1], layerName)
        + (if MatchesKeyword(key, style, layerName) then [style] else [])
  }

  /** The matches of each keyword in turn: keyword-major, then availability
      order. */
  function KeywordMatches(keys: seq<string>, avail: seq<string>, layerName: string): seq<string>
    decreases |keys|
  {
    if |keys| == 0 then []
    else
      KeywordMatches(keys[..|keys| - 1], avail, layerName)
        + MatchingStyles(keys[|keys| - 1], avail, layerName)
  }

  /** The styles offered for a layer: the keyword matches, then
      "dynamic_default" when the server has it. */
  function StylesFor(avail: seq<string>, layerName: string): (r: seq<string>)
    ensures forall s :: s in r ==> s in avail
    ensures DynamicDefault in avail ==> |r| > 0 && r[|r| - 1] == DynamicDefault
  {
    KeywordMatchesMembers(Keywords, avail, layerName);
    KeywordMatches(Keywords, avail, layerName)
      + (if DynamicDefault in avail then [DynamicDefault] else [])
  }

  lemma {:induction false} MatchingStylesMembers(key: string, avail: seq<string>, layerName: string)
    ensures forall s :: s in MatchingStyles(key, avail, layerName) <==>
      s in avail && MatchesKeyword(key, s, layerName)
    decreases |avail|
  {
    if |avail| > 0 {
      var init := avail[..|avail| - 1];
      MatchingStylesMembers(key, init, layerName);
      assert avail == init + [avail[|avail| - 1]];
    }
  }

  /** Matching one keyword keeps availability order: the matches of a
      concatenation are the matches of each part, in turn. */
  lemma {:induction false} MatchingStylesKeepOrder(key: string, a: seq<string>, b: seq<string>, layerName: string)
    ensures MatchingStyles(key, a + b, layerName)
      == MatchingStyles(key, a, layerName) + MatchingStyles(key, b, layerName)
    decreases |b|
  {
    if |b| == 0 {
      assert a + b == a;
    } else {
      var ab := a + b;
      assert ab[..|ab| - 1] == a + b[..|b| - 1];
      assert ab[|ab| - 1] == b[|b| - 1];
      MatchingStylesKeepOrder(key, a, b[..|b| - 1], layerName);
    }
  }

  /** Keywords are served in vocabulary order: the matches of a split
      vocabulary are the matches of the first part, then of the second. */
  lemma {:induction false} KeywordMatchesKeywordMajor(k1: seq<string>, k2: seq<string>, avail: seq<string>, layerName: string)
    ensures KeywordMatches(k1 + k2, avail, layerName)
      == KeywordMatches(k1, avail, layerName) + KeywordMatches(k2, avail, layerName)
    decreases |k2|
  {
    if |k2| == 0 {
      assert k1 + k2 == k1;
    } else {
      var ks := k1 + k2;
      assert ks[..|ks| - 1] == k1 + k2[..|k2| - 1];
      assert ks[|ks| - 1] == k2[|k2| - 1];
      KeywordMatchesKeywordMajor(k1, k2[..|k2| - 1], avail, layerName);
    }
  }

  lemma {:induction false} KeywordMatchesMembers(keys: seq<string>, avail: seq<string>, layerName: string)
    ensures forall s :: s in KeywordMatches(keys, avail, layerName) <==>
      s in avail && exists k :: k in keys && MatchesKeyword(k, s, layerName)
    decreases |keys|
  {
    if |keys| > 0 {
      var init := keys[..|keys| - 1];
      var last := keys[|keys| - 1];
      KeywordMatchesMembers(init, avail, layerName);
      MatchingStylesMembers(last, avail, layerName);
      assert keys == init + [last];
      forall s | s in avail && (exists k :: k in keys && MatchesKeyword(k, s, layerName))
        ensures s in KeywordMatches(keys, avail, layerName)
      {
        var k :| k in keys && MatchesKeyword(k, s, layerName);
        if k != last {
          assert k in init;
        }
      }
    }
  }

  /** Exactly the available styles that share a keyword with the layer are
      offered, plus "dynamic_default" when available; nothing else. */
  lemma StylesForMembers(avail: seq<string>, layerName: string)
    ensures forall s :: s in StylesFor(avail, layerName) <==>
      (s == DynamicDefault && DynamicDefault in avail)
      || (s in avail && SharesKeyword(s, layerName))
  {
    KeywordMatchesMembers(Keywords, avail, layerName);
  }

  /** "dynamic_default" closes the list exactly when the server has it. */
  lemma DynamicDefaultLast(avail: seq<string>, layerName: string)
    ensures var r := StylesFor(avail, layerName);
      (|r| > 0 && r[|r| - 1] == DynamicDefault) <==> DynamicDefault in avail
  {
    var r := StylesFor(avail, layerName);
    if DynamicDefault !in avail && |r| > 0 {
      StylesForMembers(avail, layerName);
      assert r[|r| - 1] in r;
    }
  }

  /** `get_keyword_styles` given the names of the styles the server lists:
      for each keyword in turn, every available style that shares it with the
      layer, then "dynamic_default" if available. */
  method KeywordStyles(avail: seq<string>, layerName: string) returns (result: seq<string>)
    ensures result == StylesFor(avail, layerName)
    ensures forall s :: s in result <==>
      (s == DynamicDefault && DynamicDefault in avail)
      || (s in avail && SharesKeyword(s, layerName))
  {
    result := [];
    var i := 0;
    while i < |Keywords|
      invariant 0 <= i <= |Keywords|
      invariant result == KeywordMatches(Keywords[..i], avail, layerName)
    {
      var key := Keywords[i];
      var j := 0;
      while j < |avail|
        invariant 0 <= j <= |avail|
        invariant result == KeywordMatches(Keywords[..i], avail, layerName)
                          + MatchingStyles(key, avail[..j], layerName)
      {
        var style := avail[j];
        assert avail[..j + 1][..j] == avail[..j];
        if Contains(Lower(style), key) && Contains(Lower(layerName), key) {
          result := result + [style];
        }
        j := j + 1;
      }
      assert avail[..|avail|] == avail;
      assert Keywords[..i + 1][..i] == Keywords[..i];
      i := i + 1;
    }
    assert Keywords[..|Keywords|] == Keywords;
    if DynamicDefault in avail {
      result := result + [DynamicDefault];
    }
    StylesForMembers(avail, layerName);
  }

  /** The default colormap: "dynamic_default" if offered, else "raster". */
  function DefaultColormap(colormaps: seq<string>): (r: string)
    ensures r == DynamicDefault || r == Raster
  {
    if DynamicDefault in colormaps then DynamicDefault else Raster
  }

  /** A layer's default colormap is "dynamic_default" exactly when the server
      has that style, whatever the layer is called. */
  lemma DefaultColormapChoice(avail: seq<string>, layerName: string)
    ensures DefaultColormap(StylesFor(avail, layerName))
      == if DynamicDefault in avail then DynamicDefault else Raster
  {
    StylesForMembers(avail, layerName);
  }
}
