/** The existence check (`exists`) over the server's catalog, held here as a
    value: workspaces (one per basin), each with coverage stores, each with
    coverages. An empty listing (which the server reports as an empty string)
    is an empty sequence. */
module Existence {
  import opened Results
  import opened Text

  datatype CoverageStore = CoverageStore(name: string, coverages: seq<string>)

  datatype Workspace = Workspace(name: string, coverageStores: seq<CoverageStore>)

  datatype Catalog = Catalog(workspaces: seq<Workspace>)

  function WorkspaceNames(ws: seq<Workspace>): (r: seq<string>)
    ensures |r| == |ws|
    ensures forall i :: 0 <= i < |ws| ==> r[i] == ws[i].name
  {
    seq(|ws|, i requires 0 <= i < |ws| => ws[i].name)
  }

  function StoreNames(cs: seq<CoverageStore>): (r: seq<string>)
    ensures |r| == |cs|
    ensures forall i :: 0 <= i < |cs| ==> r[i] == cs[i].name
  {
    seq(|cs|, i requires 0 <= i < |cs| => cs[i].name)
  }

  /** Where a `for ... : if ...: break` scan leaves its loop variable: at the
      first entry named target, or at the last entry when there is none. */
  function Scan(names: seq<string>, target: string): (r: nat)
    requires |names| > 0
    ensures r < |names|
    ensures target in names ==> names[r] == target && target !in names[..r]
    ensures target !in names ==> r == |names| - 1
    decreases |names|
  {
    if names[0] == target || |names| == 1 then 0
    else
      var k := Scan(names[1..], target);
      assert names[1..][..k] == names[1..k + 1];
      1 + k
  }

  /** The workspace the source goes on to inspect, and whether it is the
      basin's. */
  function BasinWorkspace(cat: Catalog, basin: string): (r: Option<(Workspace, bool)>)
    ensures r.None? <==> |cat.workspaces| == 0
    ensures r.Some? ==> r.value.0 in cat.workspaces
    ensures r.Some? ==> (r.value.1 <==> Lower(basin) in WorkspaceNames(cat.workspaces))
  {
    var ws := cat.workspaces;
    if |ws| == 0 then None
    else
      var w := ws[Scan(WorkspaceNames(ws), Lower(basin))];
      Some((w, w.name == Lower(basin)))
  }

  /** The store check on the inspected workspace: not asked (None), or
      whether a coverage store of that name is there, with the store found. */
  function StoreCheck(w: Workspace, store: Option<string>): (r: Option<(bool, CoverageStore)>)
    ensures store.None? ==> r.None?
    ensures store.Some? ==> r.Some? && (r.value.0 <==> store.value in StoreNames(w.coverageStores))
    ensures r.Some? ==> (r.value.0 ==> r.value.1 in w.coverageStores && r.value.1.name == store.value)
  {
    match store
    case None => None
    case Some(name) =>
      var cs := w.coverageStores;
      if |cs| == 0 then Some((false, CoverageStore(name, [])))
      else
        var s := cs[Scan(StoreNames(cs), name)];
        Some((s.name == name, s))
  }

  /** The outcome of each requested level: None when the level was not asked
      about, Some(found) otherwise. */
  function Checks(cat: Catalog, basin: string, store: Option<string>, layer: Option<string>)
    : (r: seq<Option<bool>>)
    ensures |r| == 3
    ensures r[0].Some? && (r[1].Some? <==> store.Some?) && (r[2].Some? <==> layer.Some?)
    ensures r[2] == Some(true) ==> r[1] == Some(true)
  {
    match BasinWorkspace(cat, basin)
    case None =>
      [Some(false),
       if store.Some? then Some(false) else None,
       if layer.Some? then Some(false) else None]
    case Some((w, wsFound)) =>
      var sc := StoreCheck(w, store);
      [Some(wsFound),
       if sc.Some? then Some(sc.value.0) else None,
       if layer.None? then None
       else if sc.Some? && sc.value.0 then Some(layer.value in sc.value.1.coverages)
       else Some(false)]
  }

  function CountAsked(flags: seq<Option<bool>>): nat
    decreases |flags|
  {
    if |flags| == 0 then 0 else (if flags[0].Some? then 1 else 0) + CountAsked(flags[1..])
  }

  function CountFound(flags: seq<Option<bool>>): nat
    decreases |flags|
  {
    if |flags| == 0 then 0 else (if flags[0] == Some(true) then 1 else 0) + CountFound(flags[1..])
  }

  /** The source's verdict: as many levels found as were asked about. */
  predicate AllFound(flags: seq<Option<bool>>)
  {
    CountAsked(flags) == CountFound(flags)
  }

  /** Counting agrees with the plain reading: no asked level was missing. */
  lemma {:induction false} AllFoundIff(flags: seq<Option<bool>>)
    ensures AllFound(flags) <==> forall i :: 0 <= i < |flags| ==> flags[i] != Some(false)
    ensures CountFound(flags) <= CountAsked(flags)
    decreases |flags|
  {
    if |flags| > 0 {
      var rest := flags[1..];
      AllFoundIff(rest);
      assert forall i :: 1 <= i < |flags| ==> flags[i] == rest[i - 1];
      assert CountAsked(flags) == (if flags[0].Some? then 1 else 0) + CountAsked(rest);
      assert CountFound(flags) == (if flags[0] == Some(true) then 1 else 0) + CountFound(rest);
      if AllFound(flags) {
        assert flags[0] != Some(false) && AllFound(rest);
        forall i | 0 <= i < |flags|
          ensures flags[i] != Some(false)
        {
          if i > 0 {
            assert rest[i - 1] != Some(false);
          }
        }
      }
      if forall i :: 0 <= i < |flags| ==> flags[i] != Some(false) {
        assert flags[0] != Some(false);
        forall i | 0 <= i < |rest|
          ensures rest[i] != Some(false)
        {
          assert flags[i + 1] != Some(false);
        }
        assert AllFound(rest);
        if flags[0].Some? {
          var b := flags[0].value;
          assert flags[0] == Some(b);
          assert b;
        }
        assert AllFound(flags);
      }
    }
  }

  /** `exists(basin, store, layer)`. */
  function Exists(cat: Catalog, basin: string, store: Option<string>, layer: Option<string>): (r: bool)
    ensures r <==> forall i :: 0 <= i < 3 ==> Checks(cat, basin, store, layer)[i] != Some(false)
  {
    AllFoundIff(Checks(cat, basin, store, layer));
    AllFound(Checks(cat, basin, store, layer))
  }

  /** What an affirmative answer means: the basin's workspace is there (its
      name is the lowered basin name); if a store was named, that workspace
      has a coverage store of exactly that name; if a layer was named, a store
      was named too and it holds a coverage of exactly that name. */
  ghost predicate Present(cat: Catalog, basin: string, store: Option<string>, layer: Option<string>)
  {
    && (layer.Some? ==> store.Some?)
    && exists w :: w in cat.workspaces && w.name == Lower(basin)
         && (store.Some? ==>
               exists s :: s in w.coverageStores && s.name == store.value
                 && (layer.Some? ==> layer.value in s.coverages))
  }

  /** No two workspaces share a name, nor two stores of one workspace. */
  ghost predicate UniqueNames(cat: Catalog)
  {
    && (forall i, j :: 0 <= i < j < |cat.workspaces| ==>
          cat.workspaces[i].name != cat.workspaces[j].name)
    && (forall w :: w in cat.workspaces ==>
          forall i, j :: 0 <= i < j < |w.coverageStores| ==>
            w.coverageStores[i].name != w.coverageStores[j].name)
  }

  /** Whatever the catalog, a true answer is never wrong. */
  lemma ExistsSound(cat: Catalog, basin: string, store: Option<string>, layer: Option<string>)
    requires Exists(cat, basin, store, layer)
    ensures Present(cat, basin, store, layer)
  {
    var flags := Checks(cat, basin, store, layer);
    AllFoundIff(flags);
    assert flags[0] != Some(false) && flags[1] != Some(false) && flags[2] != Some(false);
    var bw := BasinWorkspace(cat, basin);
    var w := bw.value.0;
    assert w.name == Lower(basin);
    if store.Some? {
      var sc := StoreCheck(w, store);
      assert sc.value.1 in w.coverageStores && sc.value.1.name == store.value;
    }
  }

  /** With unique names, everything present is reported as existing. */
  lemma ExistsComplete(cat: Catalog, basin: string, store: Option<string>, layer: Option<string>)
    requires UniqueNames(cat)
    requires Present(cat, basin, store, layer)
    ensures Exists(cat, basin, store, layer)
  {
    var ws := cat.workspaces;
    var w0 :| w0 in ws && w0.name == Lower(basin)
         && (store.Some? ==>
               exists s :: s in w0.coverageStores && s.name == store.value
                 && (layer.Some? ==> layer.value in s.coverages));
    assert Lower(basin) in WorkspaceNames(ws);
    var wi := Scan(WorkspaceNames(ws), Lower(basin));
    var w := ws[wi];
    assert w == w0;
    var flags := Checks(cat, basin, store, layer);
    if store.Some? {
      var s0 :| s0 in w.coverageStores && s0.name == store.value
                 && (layer.Some? ==> layer.value in s0.coverages);
      var cs := w.coverageStores;
      assert store.value in StoreNames(cs);
      var s := cs[Scan(StoreNames(cs), store.value)];
      assert s == s0;
    }
    AllFoundIff(flags);
  }

  /** Asked about the basin alone, the answer is exact whatever the catalog:
      true precisely when a workspace carries the lowered basin name. */
  lemma ExistsBasinIff(cat: Catalog, basin: string)
    ensures Exists(cat, basin, None, None) <==> exists w :: w in cat.workspaces && w.name == Lower(basin)
  {
    var ws := cat.workspaces;
    if exists w :: w in ws && w.name == Lower(basin) {
      var w :| w in ws && w.name == Lower(basin);
      var i :| 0 <= i < |ws| && ws[i] == w;
      assert WorkspaceNames(ws)[i] == Lower(basin);
    }
    if Exists(cat, basin, None, None) {
      ExistsSound(cat, basin, None, None);
    }
  }

  /** Asking for a layer without naming its store always answers false. */
  lemma LayerWithoutStore(cat: Catalog, basin: string, layer: string)
    ensures !Exists(cat, basin, None, Some(layer))
  {
    if Exists(cat, basin, None, Some(layer)) {
      ExistsSound(cat, basin, None, Some(layer));
    }
  }

  /** A missing workspace makes every question false, a missing store every
      question about its layers. */
  lemma MissingParent(cat: Catalog, basin: string, store: Option<string>, layer: Option<string>)
    ensures (forall w :: w in cat.workspaces ==> w.name != Lower(basin))
      ==> !Exists(cat, basin, store, layer)
    ensures store.Some? && layer.Some?
      && (forall w, s :: w in cat.workspaces && w.name == Lower(basin) && s in w.coverageStores ==>
            s.name != store.value)
      ==> !Exists(cat, basin, store, layer)
  {
    if Exists(cat, basin, store, layer) {
      ExistsSound(cat, basin, store, layer);
    }
  }
}
