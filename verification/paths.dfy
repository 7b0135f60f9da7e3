/** The names derived from paths, dates and the server address: the prepared
    file's name, the coverage-store names and url, the download request, the
    host used for copying, and the variables published as layers. */
module Paths {
  import opened Results
  import opened Text
  import Decimal

  // ---------------------------------------------------------------------------
  // File and store names

  /** The date with every ':' and '-' deleted. */
  function CleanDate(date: string): (r: string)
    ensures ':' !in r && '-' !in r
  {
    RemoveMembers(date, {':', '-'});
    Remove(date, {':', '-'})
  }

  /** An ISO date cleans to its compact form. */
  lemma CleanIsoDate(d: Decimal.Date)
    requires Decimal.ValidDate(d)
    ensures CleanDate(Decimal.IsoDate(d)) == Decimal.CompactDate(d)
  {
    Decimal.IsoDateWithoutHyphens(d, {':', '-'});
  }

  /** The file's base name up to its first dot. */
  function Stem(path: string): (r: string)
    ensures '.' !in r && '/' !in r
    ensures r <= Basename(path) && (|r| < |Basename(path)| ==> Basename(path)[|r|] == '.')
  {
    var b := Basename(path);
    FirstFieldIsPrefix(b, '.');
    assert forall i :: 0 <= i < |FirstField(b, '.')| ==> FirstField(b, '.')[i] == b[i];
    FirstField(b, '.')
  }

  /** A file name with one dot, in no directory, has the text before the dot
      as its stem. */
  lemma StemOfFileName(name: string, ext: string)
    requires '.' !in name && '/' !in name && '/' !in ext
    ensures Stem(name + "." + ext) == name
  {
    var file := name + "." + ext;
    assert file == name + ['.'] + ext;
    assert '/' !in file;
    var r := Stem(file);
    assert file[|name|] == '.';
    assert r == file[..|r|];
    assert file[..|name|] == name;
  }

  /** The name of a prepared model-output file: stem, '_', cleaned date,
      ".nc". */
  function ModeledFileName(path: string, date: string): (r: string)
    ensures |r| == |Stem(path)| + |CleanDate(date)| + 4
  {
    Stem(path) + "_" + CleanDate(date) + ".nc"
  }

  /** The prepared name splits back at its one dot into the dated stem and
      the extension "nc", and lies in no directory, when the date has no dot
      or slash. */
  lemma ModeledFileNameParts(path: string, date: string)
    requires '.' !in date && '/' !in date
    ensures Split(ModeledFileName(path, date), '.') == [Stem(path) + "_" + CleanDate(date), "nc"]
    ensures Stem(ModeledFileName(path, date)) == Stem(path) + "_" + CleanDate(date)
    ensures Basename(ModeledFileName(path, date)) == ModeledFileName(path, date)
  {
    var stem := Stem(path) + "_" + CleanDate(date);
    var name := ModeledFileName(path, date);
    RemoveMembers(date, {':', '-'});
    assert '.' !in stem && '/' !in stem;
    assert name == stem + ['.'] + "nc";
    SplitAround(stem, "nc", '.');
    SplitNoSeparator(stem, '.');
    SplitNoSeparator("nc", '.');
    assert '/' !in name;
    SplitNoSeparator(name, '/');
  }

  /** The store of a basin's topographic images. */
  function TopoStoreName(basin: string): (r: string)
    ensures |r| == |basin| + 5 && r[..|basin|] == basin && r[|basin|..] == "_topo"
  {
    basin + "_topo"
  }

  /** The store of a model-output file: basin, '_', the file's stem. */
  function ModeledStoreName(basin: string, filename: string): (r: string)
    ensures |r| > |basin| && r[..|basin|] == basin && r[|basin|] == '_'
    ensures '.' !in r[|basin|..] && '/' !in r[|basin|..]
  {
    var s := Stem(filename);
    assert (basin + "_" + s)[|basin|..] == "_" + s;
    basin + "_" + s
  }

  /** A prepared model-output file copied into any directory gets the store
      named after basin, stem and compact date, which is never the topographic
      store. */
  lemma ModeledStoreOfUpload(basin: string, dir: string, path: string, d: Decimal.Date)
    requires Decimal.ValidDate(d)
    ensures var remote := dir + "/" + ModeledFileName(path, Decimal.IsoDate(d));
      && ModeledStoreName(basin, remote) == basin + "_" + Stem(path) + "_" + Decimal.CompactDate(d)
      && ModeledStoreName(basin, remote) != TopoStoreName(basin)
  {
    var iso := Decimal.IsoDate(d);
    var compact := Decimal.CompactDate(d);
    CleanIsoDate(d);
    assert '.' !in iso && '/' !in iso by {
      Decimal.Pow10Widths();
      assert iso == Decimal.Pad(d.year, 4) + "-" + Decimal.Pad(d.month, 2) + "-" + Decimal.Pad(d.day, 2);
      assert forall i :: 0 <= i < |iso| ==> Decimal.IsDigit(iso[i]) || iso[i] == '-';
    }
    var name := ModeledFileName(path, iso);
    ModeledFileNameParts(path, iso);
    BasenameInDirectory(dir, name);
    var store := ModeledStoreName(basin, dir + "/" + name);
    assert store == basin + "_" + Stem(path) + "_" + compact;
    assert store[|store| - 1] == compact[7];
  }

  /** `"file:basins/<basin>/<file name>"`: where the server finds a store's
      file. */
  function CoverageStoreUrl(basin: string, filename: string): (r: string)
    ensures Basename(r) == Basename(filename)
  {
    BasenameInDirectory("file:basins/" + basin, Basename(filename));
    "file:basins/" + basin + "/" + Basename(filename)
  }

  /** The url names the copied file whatever directory it was copied into. */
  lemma CoverageStoreUrlOfCopy(basin: string, dir: string, name: string)
    requires '/' !in name
    ensures CoverageStoreUrl(basin, dir + "/" + name) == "file:basins/" + basin + "/" + name
  {
    BasenameInDirectory(dir, name);
  }

  // ---------------------------------------------------------------------------
  // Layer variables

  /** An upload whose file holds no layer variables stops. */
  datatype UploadError = NoVariables

  /** The netCDF variables that are coordinates or projection, not layers. */
  const NonLayerVariables: seq<string> := ["time", "x", "y", "projection"]

  /** The file's variables that become layers, in file order. */
  function LayerVariables(vars: seq<string>): (r: seq<string>)
    ensures |r| <= |vars|
    ensures forall k :: 0 <= k < |r| ==> r[k] !in NonLayerVariables
    decreases |vars|
  {
    if |vars| == 0 then []
    else (if vars[0] in NonLayerVariables then [] else [vars[0]]) + LayerVariables(vars[1..])
  }

  lemma {:induction false} LayerVariablesMembers(vars: seq<string>)
    ensures forall v :: v in LayerVariables(vars) <==> v in vars && v !in NonLayerVariables
    decreases |vars|
  {
    if |vars| > 0 {
      LayerVariablesMembers(vars[1..]);
      assert vars == [vars[0]] + vars[1..];
    }
  }

  /** Filtering keeps file order: the layers of a concatenation are the
      layers of each part, in turn. */
  lemma {:induction false} LayerVariablesConcat(a: seq<string>, b: seq<string>)
    ensures LayerVariables(a + b) == LayerVariables(a) + LayerVariables(b)
    decreases |a|
  {
    if |a| == 0 {
      assert a + b == b;
    } else {
      assert (a + b)[1..] == a[1..] + b;
      LayerVariablesConcat(a[1..], b);
    }
  }

  /** The layers to publish; an upload with none stops. */
  function SelectLayers(vars: seq<string>): (r: Result<seq<string>, UploadError>)
    ensures r.Err? <==> forall v :: v in vars ==> v in NonLayerVariables
    ensures r.Err? ==> r.error == NoVariables
    ensures r.Ok? ==> |r.value| > 0 && forall v :: v in r.value <==> v in vars && v !in NonLayerVariables
  {
    LayerVariablesMembers(vars);
    var layers := LayerVariables(vars);
    if |layers| == 0 then Err(NoVariables)
    else
      assert layers[0] in layers;
      Ok(layers)
  }

  // ---------------------------------------------------------------------------
  // Download

  datatype DownloadRequest = DownloadRequest(fileName: string, resource: string)

  datatype DownloadError = DownloadUndeveloped(kind: string)

  /** `download(basin, date, kind)` for a parsed date: the file is named after
      the ISO date with its hyphens joined away. */
  function Download(basin: string, date: Decimal.Date, kind: string): (r: Result<DownloadRequest, DownloadError>)
    requires Decimal.ValidDate(date)
    ensures r.Ok? <==> kind == "modeled"
    ensures r.Ok? ==> r.value.resource == "resource/basins/" + basin + "/" + r.value.fileName
  {
    var dateStr := Concat(Split(Decimal.IsoDate(date), '-'));
    if kind == "modeled" then
      var fileName := "masked_snow_" + dateStr + ".nc";
      Ok(DownloadRequest(fileName, "resource/basins/" + basin + "/" + fileName))
    else Err(DownloadUndeveloped(kind))
  }

  /** The downloaded file is "masked_snow_YYYYMMDD.nc", and its digits read
      back as the requested date. */
  lemma DownloadFileName(basin: string, date: Decimal.Date)
    requires Decimal.ValidDate(date)
    ensures var r := Download(basin, date, "modeled");
      var f := r.value.fileName;
      && f == "masked_snow_" + Decimal.CompactDate(date) + ".nc"
      && Decimal.Value(f[12..16]) == date.year
      && Decimal.Value(f[16..18]) == date.month
      && Decimal.Value(f[18..20]) == date.day
  {
    var iso := Decimal.IsoDate(date);
    var compact := Decimal.CompactDate(date);
    ConcatSplit(iso, '-');
    Decimal.IsoDateWithoutHyphens(date, {'-'});
    var f := "masked_snow_" + compact + ".nc";
    assert f[12..20] == compact;
    assert f[12..16] == compact[..4];
    assert f[16..18] == compact[4..6];
    assert f[18..20] == compact[6..];
    Decimal.CompactDateDecodes(date);
  }

  // ---------------------------------------------------------------------------
  // Server host

  /** The copy host as derived from the url's network location: when it has
      a ':', everything before the last ':' with the remaining colons
      deleted. */
  function StripPort(netloc: string): (r: string)
    ensures |r| <= |netloc|
    ensures ':' !in netloc ==> r == netloc
  {
    ConcatSplit(netloc, ':');
    if ':' in netloc then
      var parts := Split(netloc, ':');
      ConcatAppend(parts[..|parts| - 1], [parts[|parts| - 1]]);
      assert parts == parts[..|parts| - 1] + [parts[|parts| - 1]];
      Concat(parts[..|parts| - 1])
    else netloc
  }

  /** As written, a port is dropped but so is every colon of the host. */
  lemma StripPortDeletesHostColons(host: string, port: string)
    requires ':' !in port
    ensures StripPort(host + ":" + port) == Remove(host, {':'})
  {
    var netloc := host + ":" + port;
    assert netloc == host + [':'] + port;
    assert netloc[|host|] == ':';
    SplitAround(host, port, ':');
    SplitNoSeparator(port, ':');
    var parts := Split(netloc, ':');
    assert parts[..|parts| - 1] == Split(host, ':');
    ConcatSplit(host, ':');
  }

  /** A bracketed IPv6 address with a port loses its colons:
      "[::1]:8080" gives "[1]". */
  lemma StripPortMangles(netloc: string)
    requires netloc == "[::1]:8080"
    ensures StripPort(netloc) == "[1]"
  {
    var host, port := "[::1]", "8080";
    assert netloc == host + ":" + port;
    StripPortDeletesHostColons(host, port);
    assert host == "[" + [':'] + "" + [':'] + "1]";
    RemoveSeparators("[", "", "1]", ':', {':'});
    assert "[" + "1]" == "[1]";
  }

  /** The location ends in a port: it has a ':' and does not end with the
      closing bracket of an IPv6 address. */
  predicate HasPort(netloc: string)
  {
    ':' in netloc && netloc[|netloc| - 1] != ']'
  }

  /** The host as intended: with a port, everything before the last ':',
      kept as it is; without one, the location unchanged. */
  function StripPortIntended(netloc: string): (r: string)
    ensures |r| <= |netloc|
    ensures !HasPort(netloc) ==> r == netloc
    ensures HasPort(netloc) ==>
      |r| < |netloc| && netloc[|r|] == ':' && r == netloc[..|r|] && ':' !in netloc[|r| + 1..]
  {
    if HasPort(netloc) then
      var parts := Split(netloc, ':');
      JoinSplit(netloc, ':');
      var host := Join(parts[..|parts| - 1], ':');
      JoinLast(parts, ':');
      assert netloc == host + [':'] + parts[|parts| - 1];
      assert netloc[|host| + 1..] == parts[|parts| - 1];
      host
    else netloc
  }

  /** A join is the join of all fields but the last, the separator, and the
      last field. */
  lemma {:induction false} JoinLast(parts: seq<string>, sep: char)
    requires |parts| >= 2
    ensures Join(parts, sep) == Join(parts[..|parts| - 1], sep) + [sep] + parts[|parts| - 1]
    decreases |parts|
  {
    var init := parts[..|parts| - 1];
    if |parts| > 2 {
      assert parts[1..][..|parts| - 2] == init[1..];
      JoinLast(parts[1..], sep);
      assert Join(init, sep) == init[0] + [sep] + Join(init[1..], sep);
    } else {
      assert init == [parts[0]];
      assert parts[1..] == [parts[1]];
    }
  }

  /** The intended host: host:port gives host back, colons and all. */
  lemma StripPortIntendedKeepsHost(host: string, port: string)
    requires ':' !in port && ']' !in port
    ensures StripPortIntended(host + ":" + port) == host
  {
    var netloc := host + ":" + port;
    assert netloc == host + [':'] + port;
    assert netloc[|host|] == ':';
    SplitAround(host, port, ':');
    SplitNoSeparator(port, ':');
    var parts := Split(netloc, ':');
    assert parts[..|parts| - 1] == Split(host, ':');
    JoinSplit(host, ':');
  }

  /** For a host without colons (a name or an IPv4 address) both versions
      give the host. */
  lemma StripPortAgreesOnPlainHosts(host: string, port: string)
    requires ':' !in host && ':' !in port && ']' !in port
    ensures StripPort(host + ":" + port) == host
    ensures StripPortIntended(host + ":" + port) == host
  {
    StripPortDeletesHostColons(host, port);
    RemoveAbsent(host, {':'});
    StripPortIntendedKeepsHost(host, port);
  }

  /** An IPv6 address keeps its colons, with or without a port. */
  lemma StripPortIntendedOnIPv6(netloc: string)
    requires netloc == "[::1]:8080"
    ensures StripPortIntended(netloc) == "[::1]"
    ensures StripPortIntended("[::1]") == "[::1]"
  {
    StripPortIntendedKeepsHost("[::1]", "8080");
    assert netloc == "[::1]" + ":" + "8080";
  }
}
