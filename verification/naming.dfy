/** The naming rules of `create_layer`: how a netCDF variable name becomes the
    coverage's native name, its published name and its human-readable title,
    and when a value range is attached to it. */
module LayerNaming {
  import opened Results
  import opened Text
  import Decimal

  /** The variables renamed for display. */
  const Remap: map<string, string> :=
    map["snow_density" := "density", "specific_mass" := "SWE", "thickness" := "depth"]

  /** The renamed variables as the source lists them when testing for a rename. */
  const Renamed: seq<string> := ["snow_density", "specific_mass", "thickness"]

  /** The variable name with spaces turned into underscores, then hyphens
      dropped. */
  function NativeName(layer: string): (r: string)
    ensures ' ' !in r && '-' !in r
  {
    RemoveMembers(Replace(layer, ' ', '_'), {'-'});
    Remove(Replace(layer, ' ', '_'), {'-'})
  }

  /** The same rule in a single pass over the characters. */
  function NativeNameByChar(layer: string): string
    decreases |layer|
  {
    if |layer| == 0 then ""
    else
      var c := layer[0];
      (if c == '-' then "" else if c == ' ' then "_" else [c])
        + NativeNameByChar(layer[1..])
  }

  /** Replacing spaces and dropping hyphens are independent: doing both in two
      passes is the one-pass rewrite of each character. */
  lemma {:induction false} NativeNameCharwise(layer: string)
    ensures NativeName(layer) == NativeNameByChar(layer)
    decreases |layer|
  {
    if |layer| > 0 {
      var spaced := Replace(layer, ' ', '_');
      assert spaced[1..] == Replace(layer[1..], ' ', '_');
      NativeNameCharwise(layer[1..]);
    }
  }

  /** A native name is its own native name. */
  lemma NativeNameIdempotent(layer: string)
    ensures NativeName(NativeName(layer)) == NativeName(layer)
  {
    var n := NativeName(layer);
    assert Replace(n, ' ', '_') == n;
    RemoveAbsent(n, {'-'});
  }

  /** The display name of a native name: renamed through the remap table, or
      kept. */
  function CanonicalName(native: string): (r: string)
    ensures native in Remap ==> r == Remap[native]
    ensures native !in Remap ==> r == native
  {
    if native in Renamed then Remap[native] else native
  }

  /** The title: basin, date and name separated by spaces, with underscores
      shown as spaces; "swe" (in any case) is shown as "SWE" after a title-cased
      basin, and every other title is title-cased as a whole. */
  function LayerTitle(basin: string, date: string, name: string): (r: string)
    ensures |r| == |basin| + |date| + |name| + 2
    ensures '_' !in r
  {
    var joined := Replace(basin + " " + date + " " + name, '_', ' ');
    TitleKeepsText(joined);
    assert forall i :: 0 <= i < |joined| ==> Title(joined)[i] != '_' by {
      forall i | 0 <= i < |joined|
        ensures Title(joined)[i] != '_'
      {
        if !IsLetter(joined[i]) {
          assert Title(joined)[i] == joined[i];
        }
      }
    }
    if Lower(name) == "swe" then
      Replace(Title(basin) + " " + date + " " + Upper(name), '_', ' ')
    else
      Title(Replace(basin + " " + date + " " + name, '_', ' '))
  }

  /** Any spelling of "swe" is shown as "SWE". */
  lemma UpperOfSwe(name: string)
    requires Lower(name) == "swe"
    ensures Upper(name) == "SWE"
  {
    assert |name| == 3;
    assert ToLowerChar(name[0]) == 's' && ToLowerChar(name[1]) == 'w' && ToLowerChar(name[2]) == 'e';
  }

  /** An SWE title is the title-cased basin, the date and "SWE", with
      underscores shown as spaces. */
  lemma SweTitle(basin: string, date: string, name: string)
    requires Lower(name) == "swe"
    ensures var t := LayerTitle(basin, date, name);
      && t == Replace(Title(basin), '_', ' ') + " " + Replace(date, '_', ' ') + " SWE"
      && '_' !in t
      && |t| == |basin| + |date| + |name| + 2
  {
    UpperOfSwe(name);
    var tb := Title(basin);
    var a := tb + " " + date;
    ReplaceConcat(a + " ", "SWE", '_', ' ');
    ReplaceConcat(a, " ", '_', ' ');
    ReplaceConcat(tb + " ", date, '_', ' ');
    ReplaceConcat(tb, " ", '_', ' ');
  }

  /** Any other title is already title-cased, has no underscores, and differs
      from the space-joined parts (underscores shown as spaces) only in the
      case of letters. */
  lemma PlainTitle(basin: string, date: string, name: string)
    requires Lower(name) != "swe"
    ensures var t := LayerTitle(basin, date, name);
      var joined := Replace(basin + " " + date + " " + name, '_', ' ');
      && Title(t) == t
      && Lower(t) == Lower(joined)
      && '_' !in t
      && |t| == |basin| + |date| + |name| + 2
  {
    var t := LayerTitle(basin, date, name);
    var joined := Replace(basin + " " + date + " " + name, '_', ' ');
    TitleKeepsText(joined);
    TitleIdempotent(joined);
    forall i | 0 <= i < |t|
      ensures t[i] != '_'
    {
      assert joined[i] != '_';
      if !IsLetter(joined[i]) {
        assert t[i] == joined[i];
      }
    }
  }

  /** The published name: the display name followed by the date without its
      hyphens. */
  function PublishedName(name: string, date: string): (r: string)
    ensures |r| >= |name|
    ensures r[..|name|] == name
    ensures forall c :: c in r[|name|..] <==> c in date && c != '-'
  {
    RemoveMembers(date, {'-'});
    assert (name + Remove(date, {'-'}))[|name|..] == Remove(date, {'-'});
    name + Remove(date, {'-'})
  }

  /** Dated from an ISO date, the published name carries the date's eight
      digits. */
  lemma PublishedNameOfIsoDate(name: string, d: Decimal.Date)
    requires Decimal.ValidDate(d)
    ensures PublishedName(name, Decimal.IsoDate(d)) == name + Decimal.CompactDate(d)
  {
    Decimal.IsoDateWithoutHyphens(d, {'-'});
  }

  /** A numeric value range as computed for a variable during file
      preparation (`[min, max]`). */
  datatype ValueRange = ValueRange(min: real, max: real)

  /** The dimension entry that carries a layer's value range. */
  datatype Dimension = Dimension(name: string, range: ValueRange)

  /** The coverage object posted to create a layer. */
  datatype CoveragePayload = CoveragePayload(
    name: string,
    nativeName: string,
    nativeCoverageName: string,
    storeRef: string,
    enabled: bool,
    title: string,
    dimension: Option<Dimension>)

  /** The POST that creates a layer, and the layer name handed on to colormap
      assignment. */
  datatype LayerRequest = LayerRequest(resource: string, payload: CoveragePayload)

  /** Creating a layer before a date was recorded reads a missing attribute. */
  datatype LayerError = DateNotSet

  /** `create_layer(basin, store, layer)` given the recorded date (if any) and
      the recorded value ranges. */
  function CreateLayer(basin: string, store: string, layer: string,
                       date: Option<string>, ranges: map<string, ValueRange>)
    : (r: Result<LayerRequest, LayerError>)
    ensures r.Err? <==> date.None?
    ensures r.Ok? ==>
      var p := r.value.payload;
      && p.nativeName == NativeName(layer)
      && p.nativeCoverageName == p.nativeName
      && p.name == PublishedName(CanonicalName(p.nativeName), date.value)
      && p.title == LayerTitle(basin, date.value, CanonicalName(p.nativeName))
      && p.storeRef == basin + ":" + store
      && p.enabled
      && (p.dimension.Some? <==> p.nativeName in ranges)
      && (p.dimension.Some? ==>
            p.dimension.value == Dimension(p.name, ranges[p.nativeName]))
      && r.value.resource == "workspaces/" + basin + "/coveragestores/" + store + "/coverages.json"
  {
    match date
    case None => Err(DateNotSet)
    case Some(d) =>
      var native := NativeName(layer);
      var name := CanonicalName(native);
      var title := LayerTitle(basin, d, name);
      var published := PublishedName(name, d);
      var dimension :=
        if native in ranges then Some(Dimension(published, ranges[native])) else None;
      Ok(LayerRequest(
        "workspaces/" + basin + "/coveragestores/" + store + "/coverages.json",
        CoveragePayload(published, native, native, basin + ":" + store, true, title, dimension)))
  }

  /** Published names never contain spaces or hyphens, whatever the variable
      name and date. */
  lemma PublishedNameIsClean(basin: string, store: string, layer: string,
                             date: string, ranges: map<string, ValueRange>)
    requires ' ' !in date
    ensures var r := CreateLayer(basin, store, layer, Some(date), ranges);
      r.Ok? && ' ' !in r.value.payload.name && '-' !in r.value.payload.name
  {
    var native := NativeName(layer);
    var name := CanonicalName(native);
    if native in Remap {
      assert name == "density" || name == "SWE" || name == "depth";
    }
    assert ' ' !in name && '-' !in name;
    RemoveMembers(date, {'-'});
  }

  /** Uploading `specific_mass` to basin "kings" for 2019-04-18 publishes layer
      "SWE20190418", with no range attached when none was recorded ... */
  lemma KingsSweName(basin: string, store: string, layer: string, date: string)
    requires basin == "kings" && layer == "specific_mass" && date == "2019-04-18"
    ensures var r := CreateLayer(basin, store, layer, Some(date), map[]);
      && r.Ok?
      && r.value.payload.name == "SWE20190418"
      && r.value.payload.dimension == None
  {
    SpecificMassIsNative(layer);
    var name := CanonicalName(layer);
    assert name == "SWE";
    var r := CreateLayer(basin, store, layer, Some(date), map[]);
    assert r.value.payload.name == PublishedName(name, date);
    KingsPublishedName(name, date);
  }

  lemma KingsPublishedName(name: string, date: string)
    requires name == "SWE" && date == "2019-04-18"
    ensures PublishedName(name, date) == "SWE20190418"
  {
    KingsDateDigits(date);
    assert name + "20190418" == "SWE20190418";
  }

  lemma KingsDateDigits(date: string)
    requires date == "2019-04-18"
    ensures Remove(date, {'-'}) == "20190418"
  {
    var y, m, d := "2019", "04", "18";
    assert date == y + ['-'] + m + ['-'] + d;
    RemoveSeparators(y, m, d, '-', {'-'});
    assert y + m + d == "20190418";
  }

  /** ... and titles it "Kings 2019-04-18 SWE". */
  lemma KingsSweTitle(basin: string, store: string, layer: string, date: string)
    requires basin == "kings" && layer == "specific_mass" && date == "2019-04-18"
    ensures var r := CreateLayer(basin, store, layer, Some(date), map[]);
      r.Ok? && r.value.payload.title == "Kings 2019-04-18 SWE"
  {
    SpecificMassIsNative(layer);
    var name := CanonicalName(layer);
    assert name == "SWE";
    KingsTitleText(basin, date, name);
  }

  lemma KingsTitleText(basin: string, date: string, name: string)
    requires basin == "kings" && date == "2019-04-18" && name == "SWE"
    ensures LayerTitle(basin, date, name) == "Kings 2019-04-18 SWE"
  {
    assert Lower(name) == "swe";
    SweTitle(basin, date, name);
    KingsTitleCase(basin);
    assert Replace(date, '_', ' ') == date by {
      ReplaceAbsent(date, '_', ' ');
    }
    assert "Kings" + " " + date + " SWE" == "Kings 2019-04-18 SWE";
  }

  lemma KingsTitleCase(basin: string)
    requires basin == "kings"
    ensures Replace(Title(basin), '_', ' ') == "Kings"
  {
    assert Title(basin) == "Kings";
    ReplaceAbsent("Kings", '_', ' ');
  }

  lemma SpecificMassIsNative(layer: string)
    requires layer == "specific_mass"
    ensures NativeName(layer) == layer
  {
    assert forall i :: 0 <= i < |layer| ==> layer[i] != ' ' && layer[i] != '-';
    ReplaceAbsent(layer, ' ', '_');
    RemoveAbsent(layer, {'-'});
  }
}
