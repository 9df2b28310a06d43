/**
 The pure rules behind a virtual desk's layout memory: how a fresh layout is
 numbered, which stored layout a remember-policy selects, and what each of the
 three repairs leaves behind when monitors disappear.

 A layout maps a monitor descriptor to a workspace id. The source keeps it in a
 hash map, so its iteration order is unspecified; the repairs whose outcome
 depends on that order take it as an explicit parameter `order`, a sequence
 that lists every key exactly once.
 */
module Layouts {
  import opened Registry

  type Layout = map<string, int>

  /** `keys` lists every element of `s` exactly once: one run of a hash map's iteration. */
  predicate IsEnumeration(keys: seq<string>, s: set<string>)
  {
    && Distinct(keys)
    && (forall k :: k in keys ==> k in s)
    && (forall k :: k in s ==> k in keys)
  }

  /** `a` is `b` with every key of `s` removed. */
  lemma MapMinusKeys(a: Layout, b: Layout, s: set<string>)
    requires a.Keys == b.Keys - s
    requires forall k :: k in a ==> a[k] == b[k]
    ensures a == b - s
  {
  }

  /** A subset has no more elements than its superset. */
  lemma SubsetSize(a: set<string>, b: set<string>)
    requires a <= b
    ensures |a| <= |b|
  {
    assert b == a + (b - a);
    assert a * (b - a) == {};
  }

  /** Moving one entry to another key never grows a layout. */
  lemma MoveEntrySize(m: Layout, from: string, to: string, v: int)
    requires from in m
    ensures |m[to := v] - {from}| <= |m|
  {
    var r := m[to := v] - {from};
    var rest := m.Keys - {from};
    assert |rest| == |m.Keys| - 1 by {
      assert m.Keys == rest + {from};
    }
    if to == from || to in m {
      assert r.Keys == rest;
    } else {
      assert r.Keys == rest + {to};
    }
  }

  // ----- Generation -----

  /**
   Numbers `descs` from `first` upwards, in order. A descriptor that occurs twice
   keeps the later number, since the later assignment overwrites the earlier one.
   */
  function Numbered(descs: seq<string>, first: int): (r: Layout)
    ensures forall d :: d in r <==> d in descs
    ensures forall d :: d in r ==> first <= r[d] < first + |descs|
  {
    if descs == [] then map[]
    else
      var n := |descs| - 1;
      assert descs == descs[..n] + [descs[n]];
      Numbered(descs[..n], first)[descs[n] := first + n]
  }

  /** Dropping the last element keeps a sequence distinct, and that element does not occur before it. */
  lemma DistinctDropLast(descs: seq<string>)
    requires Distinct(descs) && descs != []
    ensures var n := |descs| - 1;
            Distinct(descs[..n]) && descs[n] !in descs[..n]
  {
    var n := |descs| - 1;
    var pre := descs[..n];
    forall i, j | 0 <= i < j < |pre| ensures pre[i] != pre[j] {
      assert pre[i] == descs[i] && pre[j] == descs[j];
    }
    forall i | 0 <= i < n ensures pre[i] != descs[n] {
      assert pre[i] == descs[i];
    }
  }

  /** With distinct descriptors no entry collapses: one entry per descriptor. */
  lemma {:induction false} NumberedSize(descs: seq<string>, first: int)
    requires Distinct(descs)
    ensures |Numbered(descs, first)| == |descs|
  {
    if descs != [] {
      var n := |descs| - 1;
      var pre, last := descs[..n], descs[n];
      assert Numbered(descs, first) == Numbered(pre, first)[last := first + n];
      DistinctDropLast(descs);
      NumberedSize(pre, first);
    }
  }

  /** With distinct descriptors the j-th one gets `first + j`. */
  lemma {:induction false} NumberedAt(descs: seq<string>, first: int)
    requires Distinct(descs)
    ensures forall j :: 0 <= j < |descs| ==> descs[j] in Numbered(descs, first) && Numbered(descs, first)[descs[j]] == first + j
  {
    if descs != [] {
      var n := |descs| - 1;
      var pre, last := descs[..n], descs[n];
      var m := Numbered(pre, first);
      assert Numbered(descs, first) == m[last := first + n];
      DistinctDropLast(descs);
      NumberedAt(pre, first);
      forall j | 0 <= j < n ensures descs[j] in m && descs[j] != last && m[descs[j]] == first + j {
        assert descs[j] == pre[j];
      }
    }
  }

  /**
   The first workspace id of desk `id` when every desk owns a block of `n` ids,
   `(id - 1) * n + 1`, written as repeated addition (see `BlockStartValue`).
   */
  function BlockStart(id: int, n: nat): int
  {
    if n == 0 then 1 else BlockStart(id, n - 1) + (id - 1)
  }

  /** The block of desk `id` starts at `(id - 1) * n + 1`. */
  lemma {:induction false} BlockStartValue(id: int, n: nat)
    ensures BlockStart(id, n) == (id - 1) * n + 1
  {
    if n > 0 {
      BlockStartValue(id, n - 1);
      assert (id - 1) * n == (id - 1) * (n - 1) + (id - 1);
    }
  }

  /** The block of a lower desk id ends before the block of a higher one starts. */
  lemma {:induction false} BlocksOrdered(lo: int, hi: int, n: nat)
    requires lo < hi
    ensures BlockStart(lo, n) + n <= BlockStart(hi, n)
  {
    if n > 0 {
      BlocksOrdered(lo, hi, n - 1);
    }
  }

  /**
   The layout a desk with id `id` generates for the current monitors: the
   enabled monitors, in registry order, numbered upwards from the desk's block start.
   */
  function GenerateLayout(id: int, registry: seq<Monitor>): Layout
  {
    var ms := EnabledMonitors(registry);
    Numbered(Descs(ms), BlockStart(id, |ms|))
  }

  /** Every enabled monitor is a key, and every id lies in the desk's block `(id-1)*n+1 .. (id-1)*n+n`. */
  lemma GenerateLayoutBlock(id: int, registry: seq<Monitor>)
    ensures var n := |EnabledMonitors(registry)|;
            var r := GenerateLayout(id, registry);
            && r.Keys == LiveDescs(registry)
            && forall d :: d in r ==> (id - 1) * n + 1 <= r[d] <= (id - 1) * n + n
  {
    BlockStartValue(id, |EnabledMonitors(registry)|);
  }

  /**
   With distinct descriptors the j-th enabled monitor in registry order gets the
   j-th id of the desk's block.
   */
  lemma GenerateLayoutAssigns(id: int, registry: seq<Monitor>)
    requires Distinct(Descs(EnabledMonitors(registry)))
    ensures var ms := EnabledMonitors(registry);
            var r := GenerateLayout(id, registry);
            forall j :: 0 <= j < |ms| ==> MonitorDesc(ms[j]) in r && r[MonitorDesc(ms[j])] == (id - 1) * |ms| + 1 + j
  {
    var ms := EnabledMonitors(registry);
    var ds, first := Descs(ms), BlockStart(id, |ms|);
    var r := Numbered(ds, first);
    BlockStartValue(id, |ms|);
    NumberedAt(ds, first);
    assert GenerateLayout(id, registry) == r;
    forall j | 0 <= j < |ms| ensures MonitorDesc(ms[j]) in r && r[MonitorDesc(ms[j])] == first + j {
      assert ds[j] == MonitorDesc(ms[j]);
    }
  }

  /** With distinct descriptors the generated layout has exactly one entry per enabled monitor. */
  lemma GenerateLayoutSize(id: int, registry: seq<Monitor>)
    requires Distinct(Descs(EnabledMonitors(registry)))
    ensures |GenerateLayout(id, registry)| == |EnabledMonitors(registry)|
  {
    var ms := EnabledMonitors(registry);
    var ds, first := Descs(ms), BlockStart(id, |ms|);
    NumberedSize(ds, first);
    assert GenerateLayout(id, registry) == Numbered(ds, first);
    assert |Numbered(ds, first)| == |ds| == |ms|;
  }

  /** Two desks with different ids generate disjoint sets of workspace ids for the same monitors. */
  lemma GeneratedDesksDisjoint(id1: int, id2: int, registry: seq<Monitor>)
    requires id1 != id2
    ensures GenerateLayout(id1, registry).Values !! GenerateLayout(id2, registry).Values
  {
    var ms := EnabledMonitors(registry);
    var n := |ms|;
    var r1, r2 := GenerateLayout(id1, registry), GenerateLayout(id2, registry);
    assert r1 == Numbered(Descs(ms), BlockStart(id1, n));
    assert r2 == Numbered(Descs(ms), BlockStart(id2, n));
    if id1 < id2 { BlocksOrdered(id1, id2, n); } else { BlocksOrdered(id2, id1, n); }
    forall v | v in r1.Values ensures v !in r2.Values {
      var d1 :| d1 in r1 && r1[d1] == v;
    }
  }

  // ----- Selection -----

  /** The remember-layout policy: match by monitor set, by monitor count, or never reuse. */
  datatype RememberLayoutConf = RememberMonitors | RememberSize | RememberNone

  /**
   Whether a stored layout qualifies under a policy. By monitor set: every key is
   the descriptor of an enabled monitor. By size: as many entries as there are
   enabled monitors.
   */
  predicate Fits(conf: RememberLayoutConf, layout: Layout, enabled: seq<Monitor>)
  {
    match conf
    case RememberMonitors => layout.Keys <= DescSet(enabled)
    case RememberSize => |layout| == |enabled|
    case RememberNone => false
  }

  /**
   How many of `keys` are in `live`: the size of the set intersection that the
   monitor-set policy compares with the number of keys. The comparison succeeds
   exactly when every key is live.
   */
  function SharedCount(keys: set<string>, live: set<string>): (n: nat)
    ensures n <= |keys|
    ensures n == |keys| <==> keys <= live
  {
    var common := keys * live;
    assert keys == common + (keys - live);
    assert common * (keys - live) == {};
    assert |keys| == |common| + |keys - live|;
    |common|
  }

  /** The lowest index of a stored layout that qualifies, if any. */
  function FirstFit(conf: RememberLayoutConf, layouts: seq<Layout>, enabled: seq<Monitor>): (r: Option<nat>)
    ensures r.Some? ==> && r.value < |layouts|
                        && Fits(conf, layouts[r.value], enabled)
                        && forall i :: 0 <= i < r.value ==> !Fits(conf, layouts[i], enabled)
    ensures r.None? <==> forall i :: 0 <= i < |layouts| ==> !Fits(conf, layouts[i], enabled)
  {
    if layouts == [] then None
    else if Fits(conf, layouts[0], enabled) then Some(0)
    else
      assert forall i :: 1 <= i < |layouts| ==> layouts[1..][i - 1] == layouts[i];
      match FirstFit(conf, layouts[1..], enabled)
      case None => None
      case Some(k) => Some(k + 1)
  }

  /** The first fit is at `k` (or there is none, when `k` is the length) once every earlier layout fails. */
  lemma {:induction false} FirstFitAt(conf: RememberLayoutConf, layouts: seq<Layout>, enabled: seq<Monitor>, k: nat)
    requires k <= |layouts|
    requires forall i :: 0 <= i < k ==> !Fits(conf, layouts[i], enabled)
    requires k < |layouts| ==> Fits(conf, layouts[k], enabled)
    ensures FirstFit(conf, layouts, enabled) == if k < |layouts| then Some(k) else None
  {
    if k > 0 {
      FirstFitAt(conf, layouts[1..], enabled, k - 1);
    }
  }

  /** A stored layout over A, B is selected by monitor set while A, B and C are enabled. */
  lemma FirstFitMonitorsExample()
    ensures var enabled := [Monitor(Some("A"), true, 0), Monitor(Some("B"), true, 0), Monitor(Some("C"), true, 0)];
            FirstFit(RememberMonitors, [map["A" := 1, "B" := 2]], enabled) == Some(0)
  {
    var enabled := [Monitor(Some("A"), true, 0), Monitor(Some("B"), true, 0), Monitor(Some("C"), true, 0)];
    var l := map["A" := 1, "B" := 2];
    assert MonitorDesc(enabled[0]) == "A" && MonitorDesc(enabled[1]) == "B";
  }

  // ----- Repair of a layout selected by size -----

  /** The first descriptor of `ds` (enabled monitors in registry order) that is not yet a key. */
  function FirstUnused(ds: seq<string>, keys: set<string>): (r: Option<string>)
    ensures r.None? <==> forall i :: 0 <= i < |ds| ==> ds[i] in keys
    ensures r.Some? ==> exists j :: && 0 <= j < |ds| && ds[j] == r.value && r.value !in keys
                                    && forall i :: 0 <= i < j ==> ds[i] in keys
  {
    if ds == [] then None
    else if ds[0] !in keys then Some(ds[0])
    else
      var r := FirstUnused(ds[1..], keys);
      assert r.Some? ==> exists j :: && 0 <= j < |ds[1..]| && ds[1..][j] == r.value
                                     && forall i :: 0 <= i < j ==> ds[1..][i] in keys;
      assert r.Some? ==> exists j :: && 0 <= j < |ds| && ds[j] == r.value
                                     && forall i :: 0 <= i < j ==> ds[i] in keys by {
        if r.Some? {
          var j :| && 0 <= j < |ds[1..]| && ds[1..][j] == r.value
                   && forall i :: 0 <= i < j ==> ds[1..][i] in keys;
          assert forall i :: 0 <= i < j + 1 ==> ds[i] in keys by {
            forall i | 0 <= i < j + 1 ensures ds[i] in keys {
              if i > 0 { assert ds[i] == ds[1..][i - 1]; }
            }
          }
        }
      }
      r
  }

  /** One step of the unused-monitor search, at position `j`. */
  lemma FirstUnusedStep(ds: seq<string>, j: nat, keys: set<string>)
    requires j < |ds|
    ensures FirstUnused(ds[j..], keys) == if ds[j] in keys then FirstUnused(ds[j + 1..], keys) else Some(ds[j])
  {
    assert ds[j..][1..] == ds[j + 1..];
  }

  /** The keys of `order` that are not enabled monitors. */
  function StaleIn(order: seq<string>, live: set<string>): set<string>
  {
    set k | k in order && k !in live
  }

  /** Scanning a full enumeration of the keys finds exactly the keys that are not live. */
  lemma StaleInEnumeration(order: seq<string>, keys: set<string>, live: set<string>)
    requires IsEnumeration(order, keys)
    ensures StaleIn(order, live) == keys - live
  {
  }

  /** The position of the first key of `order` that is not an enabled monitor (|order| if none). */
  function FirstStale(order: seq<string>, live: set<string>): (i: nat)
    ensures i <= |order|
    ensures forall j :: 0 <= j < i ==> order[j] in live
    ensures i < |order| ==> order[i] !in live
  {
    if order == [] || order[0] !in live then 0
    else 1 + FirstStale(order[1..], live)
  }

  /**
   The scan of the repair over the keys still to visit (`order`), with `cur` the
   layout as modified so far and `copy` the layout the scan started from. A key
   whose monitor is not enabled is moved to the first enabled monitor that is not
   yet a key, carrying its workspace id, and the scan stops; without such a
   monitor the key is dropped and the scan goes on.
   */
  function AdaptFrom(copy: Layout, order: seq<string>, cur: Layout, live: set<string>, ds: seq<string>): Layout
    requires forall i :: 0 <= i < |order| ==> order[i] in copy
  {
    if order == [] then cur
    else
      var desc := order[0];
      if desc in live then AdaptFrom(copy, order[1..], cur, live, ds)
      else
        match FirstUnused(ds, cur.Keys)
        case Some(monDesc) => cur[monDesc := copy[desc]] - {desc}
        case None => AdaptFrom(copy, order[1..], cur - {desc}, live, ds)
  }

  /** One step of the scan, at position `i` of the full key order. */
  lemma AdaptFromStep(copy: Layout, keys: seq<string>, i: nat, cur: Layout, live: set<string>, ds: seq<string>)
    requires forall j :: 0 <= j < |keys| ==> keys[j] in copy
    requires i < |keys|
    ensures AdaptFrom(copy, keys[i..], cur, live, ds) ==
            if keys[i] in live then AdaptFrom(copy, keys[i + 1..], cur, live, ds)
            else match FirstUnused(ds, cur.Keys)
                 case Some(monDesc) => cur[monDesc := copy[keys[i]]] - {keys[i]}
                 case None => AdaptFrom(copy, keys[i + 1..], cur - {keys[i]}, live, ds)
  {
    assert keys[i..][1..] == keys[i + 1..];
  }

  /** The repair of a layout chosen by size, scanning its keys in `order`. */
  function Adapt(layout: Layout, order: seq<string>, registry: seq<Monitor>): Layout
    requires forall i :: 0 <= i < |order| ==> order[i] in layout
  {
    AdaptFrom(layout, order, layout, LiveDescs(registry), Descs(EnabledMonitors(registry)))
  }

  /**
   Dropping stale keys never changes the answer of the unused-monitor search, so
   the scan either drops every stale key it visits or re-keys the first one.
   */
  lemma {:induction false} AdaptFromShape(copy: Layout, order: seq<string>, cur: Layout, live: set<string>, ds: seq<string>)
    requires forall i :: 0 <= i < |order| ==> order[i] in copy
    requires forall i :: 0 <= i < |ds| ==> ds[i] in live
    ensures AdaptFrom(copy, order, cur, live, ds) ==
            match FirstUnused(ds, cur.Keys)
            case None => cur - StaleIn(order, live)
            case Some(n) =>
              var i := FirstStale(order, live);
              if i == |order| then cur else cur[n := copy[order[i]]] - {order[i]}
  {
    if order == [] {
      assert StaleIn(order, live) == {};
      assert cur - {} == cur;
    } else {
      var desc, rest := order[0], order[1..];
      assert order == [desc] + rest;
      AdaptFromShape(copy, rest, cur, live, ds);
      if desc in live {
        assert StaleIn(order, live) == StaleIn(rest, live);
      } else if FirstUnused(ds, cur.Keys).None? {
        var cur' := cur - {desc};
        assert FirstUnused(ds, cur'.Keys).None?;
        AdaptFromShape(copy, rest, cur', live, ds);
        assert StaleIn(order, live) == {desc} + StaleIn(rest, live);
        MapMinusKeys(cur' - StaleIn(rest, live), cur, StaleIn(order, live));
      }
    }
  }

  /**
   The outcome of the repair in closed form. If every enabled monitor already
   has an entry, every stale key is dropped. Otherwise the first stale key in
   iteration order moves to the first unused enabled monitor, keeping its
   workspace id, and nothing else changes.
   */
  lemma AdaptShape(layout: Layout, order: seq<string>, registry: seq<Monitor>)
    requires IsEnumeration(order, layout.Keys)
    ensures var live := LiveDescs(registry);
            var r := Adapt(layout, order, registry);
            match FirstUnused(Descs(EnabledMonitors(registry)), layout.Keys)
            case None => r == layout - (layout.Keys - live)
            case Some(n) =>
              var i := FirstStale(order, live);
              r == if i == |order| then layout else layout[n := layout[order[i]]] - {order[i]}
  {
    var live, ds := LiveDescs(registry), Descs(EnabledMonitors(registry));
    AdaptFromShape(layout, order, layout, live, ds);
    StaleInEnumeration(order, layout.Keys, live);
  }

  /** Entries whose monitor is enabled keep their workspace ids. */
  lemma AdaptKeepsLiveEntries(layout: Layout, order: seq<string>, registry: seq<Monitor>)
    requires IsEnumeration(order, layout.Keys)
    ensures var r := Adapt(layout, order, registry);
            forall k :: k in layout && k in LiveDescs(registry) ==> k in r && r[k] == layout[k]
  {
    var live, r := LiveDescs(registry), Adapt(layout, order, registry);
    AdaptShape(layout, order, registry);
    forall k | k in layout && k in live ensures k in r && r[k] == layout[k] {
      match FirstUnused(Descs(EnabledMonitors(registry)), layout.Keys)
      case None =>
        assert r == layout - (layout.Keys - live);
      case Some(n) =>
        var i := FirstStale(order, live);
        if i < |order| {
          assert n !in layout && order[i] != k;
          assert r == layout[n := layout[order[i]]] - {order[i]};
        } else {
          assert r == layout;
        }
    }
  }

  /**
   At most one re-keying: any key that was not in the layout is the first unused
   enabled monitor, and it carries the id of the first stale key scanned, which is gone.
   */
  lemma AdaptRekeysAtMostOnce(layout: Layout, order: seq<string>, registry: seq<Monitor>)
    requires IsEnumeration(order, layout.Keys)
    ensures var live := LiveDescs(registry);
            var r := Adapt(layout, order, registry);
            var i := FirstStale(order, live);
            forall k :: k in r && k !in layout ==>
              && k in live
              && FirstUnused(Descs(EnabledMonitors(registry)), layout.Keys) == Some(k)
              && i < |order| && order[i] !in r && r[k] == layout[order[i]]
  {
    AdaptShape(layout, order, registry);
  }

  /** The repair never adds entries and never invents a workspace id. */
  lemma AdaptNeverGrows(layout: Layout, order: seq<string>, registry: seq<Monitor>)
    requires IsEnumeration(order, layout.Keys)
    ensures var r := Adapt(layout, order, registry);
            |r| <= |layout| && r.Values <= layout.Values
  {
    var live, r := LiveDescs(registry), Adapt(layout, order, registry);
    AdaptShape(layout, order, registry);
    match FirstUnused(Descs(EnabledMonitors(registry)), layout.Keys)
    case None =>
      SubsetSize(r.Keys, layout.Keys);
    case Some(n) =>
      var i := FirstStale(order, live);
      if i < |order| {
        MoveEntrySize(layout, order[i], n, layout[order[i]]);
      }
  }

  /** With no unused enabled monitor, every entry whose monitor is not enabled is dropped. */
  lemma AdaptDropsWhenNoNewMonitor(layout: Layout, order: seq<string>, registry: seq<Monitor>)
    requires IsEnumeration(order, layout.Keys)
    requires forall m :: m in EnabledMonitors(registry) ==> MonitorDesc(m) in layout
    ensures Adapt(layout, order, registry).Keys == layout.Keys * LiveDescs(registry)
  {
    var ds := Descs(EnabledMonitors(registry));
    assert FirstUnused(ds, layout.Keys).None?;
    AdaptShape(layout, order, registry);
  }

  /** In the registry A (enabled), B (disabled), C (enabled) the live descriptors are A and C, in that order. */
  lemma ExampleRegistry(reg: seq<Monitor>)
    requires reg == [Monitor(Some("A"), true, 0), Monitor(Some("B"), false, 0), Monitor(Some("C"), true, 0)]
    ensures Descs(EnabledMonitors(reg)) == ["A", "C"] && LiveDescs(reg) == {"A", "C"}
  {
    assert EnabledMonitors(reg) == [reg[0], reg[2]] by {
      assert reg[1..][1..] == [reg[2]];
    }
  }

  /** Layout A:1, B:2 with B disabled and C newly enabled is repaired to A:1, C:2, in either scan order. */
  lemma AdaptExample(layout: Layout, order: seq<string>, reg: seq<Monitor>)
    requires layout == map["A" := 1, "B" := 2]
    requires reg == [Monitor(Some("A"), true, 0), Monitor(Some("B"), false, 0), Monitor(Some("C"), true, 0)]
    requires IsEnumeration(order, layout.Keys)
    ensures var r := Adapt(layout, order, reg);
            r.Keys == {"A", "C"} && r["A"] == 1 && r["C"] == 2
  {
    ExampleRegistry(reg);
    var keys := layout.Keys;
    assert keys == {"A", "B"};
    assert FirstUnused(["A", "C"], keys) == Some("C");
    AdaptShape(layout, order, reg);
    var i := FirstStale(order, {"A", "C"});
    assert i < |order| by {
      assert "B" in keys;
      assert "B" in order;
    }
    assert order[i] in keys && order[i] == "B";
    assert Adapt(layout, order, reg) == layout["C" := layout["B"]] - {"B"};
  }

  // ----- Repair of the active layout against the enabled monitors -----

  /** `d` occurs in `order` at a position after which every key is live. */
  predicate LastIn(order: seq<string>, live: set<string>, d: string)
  {
    exists i :: 0 <= i < |order| && order[i] == d && forall j :: i < j < |order| ==> order[j] in live
  }

  /** Putting a key in front keeps `d` last. */
  lemma LastInCons(x: string, rest: seq<string>, live: set<string>, d: string)
    requires LastIn(rest, live, d)
    ensures LastIn([x] + rest, live, d)
  {
    var order := [x] + rest;
    var i :| 0 <= i < |rest| && rest[i] == d && forall j :: i < j < |rest| ==> rest[j] in live;
    assert order[i + 1] == d;
    assert forall j :: i + 1 < j < |order| ==> order[j] == rest[j - 1];
  }

  /** In front of keys that are all live, the front key is last. */
  lemma LastInHead(x: string, rest: seq<string>, live: set<string>)
    requires forall k :: k in rest ==> k in live
    ensures LastIn([x] + rest, live, x)
  {
    var order := [x] + rest;
    assert order[0] == x;
    assert forall j :: 0 < j < |order| ==> order[j] == rest[j - 1];
  }

  /** The last key of `order` that is not an enabled monitor, if any. */
  function LastStale(order: seq<string>, live: set<string>): (r: Option<string>)
    ensures r.None? <==> StaleIn(order, live) == {}
    ensures r.Some? ==> r.value in StaleIn(order, live) && LastIn(order, live, r.value)
  {
    if order == [] then None
    else
      var rest := order[1..];
      assert order == [order[0]] + rest;
      assert StaleIn(order, live) == StaleIn(rest, live) + (if order[0] in live then {} else {order[0]});
      match LastStale(rest, live)
      case Some(d) =>
        LastInCons(order[0], rest, live, d);
        Some(d)
      case None =>
        if order[0] !in live then
          assert forall k :: k in rest ==> k in live by {
            forall k | k in rest ensures k in live {
              assert k !in StaleIn(rest, live);
            }
          }
          LastInHead(order[0], rest, live);
          Some(order[0])
        else None
  }

  /**
   The scan that moves every entry whose monitor is not enabled onto `target`;
   each move overwrites whatever `target` held before.
   */
  function RemoveStaleFrom(copy: Layout, order: seq<string>, cur: Layout, live: set<string>, target: string): Layout
    requires forall i :: 0 <= i < |order| ==> order[i] in copy
  {
    if order == [] then cur
    else
      var desc := order[0];
      if desc in live then RemoveStaleFrom(copy, order[1..], cur, live, target)
      else RemoveStaleFrom(copy, order[1..], cur[target := copy[desc]] - {desc}, live, target)
  }

  /**
   The repair of the active layout against the enabled monitors, scanning its keys
   in `order`. The move target is the least-loaded enabled monitor; it exists
   whenever some key needs moving.
   */
  function RemoveStale(layout: Layout, order: seq<string>, registry: seq<Monitor>): Layout
    requires forall i :: 0 <= i < |order| ==> order[i] in layout
    requires EnabledMonitors(registry) != [] || layout == map[]
  {
    if EnabledMonitors(registry) == [] then layout
    else RemoveStaleFrom(layout, order, layout, LiveDescs(registry), Target(registry))
  }

  /** One step of the scan, at position `i` of the full key order. */
  lemma RemoveStaleFromStep(copy: Layout, keys: seq<string>, i: nat, cur: Layout, live: set<string>, target: string)
    requires forall j :: 0 <= j < |keys| ==> keys[j] in copy
    requires i < |keys|
    ensures RemoveStaleFrom(copy, keys[i..], cur, live, target) ==
            if keys[i] in live then RemoveStaleFrom(copy, keys[i + 1..], cur, live, target)
            else RemoveStaleFrom(copy, keys[i + 1..], cur[target := copy[keys[i]]] - {keys[i]}, live, target)
  {
    assert keys[i..][1..] == keys[i + 1..];
  }

  /** Setting a key, dropping others, then setting it again is dropping them all and setting it once. */
  lemma OverrideAfterDrop(m: Layout, t: string, x: int, y: int, gone: string, drop: set<string>)
    requires t != gone && t !in drop
    ensures ((m[t := x] - {gone}) - drop)[t := y] == (m - ({gone} + drop))[t := y]
  {
  }

  lemma {:induction false} RemoveStaleFromShape(copy: Layout, order: seq<string>, cur: Layout, live: set<string>, target: string)
    requires forall i :: 0 <= i < |order| ==> order[i] in copy
    requires target in live
    ensures RemoveStaleFrom(copy, order, cur, live, target) ==
            match LastStale(order, live)
            case None => cur
            case Some(d) => (cur - StaleIn(order, live))[target := copy[d]]
  {
    if order != [] {
      var desc, rest := order[0], order[1..];
      assert order == [desc] + rest;
      if desc in live {
        RemoveStaleFromShape(copy, rest, cur, live, target);
        assert StaleIn(order, live) == StaleIn(rest, live);
        assert LastStale(order, live) == LastStale(rest, live);
      } else {
        var cur' := cur[target := copy[desc]] - {desc};
        RemoveStaleFromShape(copy, rest, cur', live, target);
        assert StaleIn(order, live) == {desc} + StaleIn(rest, live);
        match LastStale(rest, live)
        case None =>
          assert LastStale(order, live) == Some(desc);
          assert StaleIn(order, live) == {desc};
          assert cur' == (cur - {desc})[target := copy[desc]];
        case Some(d) =>
          assert LastStale(order, live) == Some(d);
          assert target !in StaleIn(rest, live);
          OverrideAfterDrop(cur, target, copy[desc], copy[d], desc, StaleIn(rest, live));
      }
    }
  }

  /**
   The repair in closed form: with no stale key nothing changes; otherwise every
   stale key is dropped and the least-loaded enabled monitor ends up holding the
   workspace id of the last stale key scanned.
   */
  lemma RemoveStaleShape(layout: Layout, order: seq<string>, registry: seq<Monitor>)
    requires IsEnumeration(order, layout.Keys)
    requires EnabledMonitors(registry) != [] || layout == map[]
    ensures var live := LiveDescs(registry);
            var r := RemoveStale(layout, order, registry);
            match LastStale(order, live)
            case None => r == layout
            case Some(d) => d in layout && d !in live && EnabledMonitors(registry) != [] &&
                            r == (layout - (layout.Keys - live))[Target(registry) := layout[d]]
  {
    var live := LiveDescs(registry);
    StaleInEnumeration(order, layout.Keys, live);
    if EnabledMonitors(registry) != [] {
      RemoveStaleFromShape(layout, order, layout, live, Target(registry));
    }
  }

  /** After the repair every key is an enabled monitor, and no workspace id is invented. */
  lemma RemoveStaleLeavesOnlyEnabled(layout: Layout, order: seq<string>, registry: seq<Monitor>)
    requires IsEnumeration(order, layout.Keys)
    requires EnabledMonitors(registry) != [] || layout == map[]
    ensures var r := RemoveStale(layout, order, registry);
            r.Keys <= LiveDescs(registry) && r.Values <= layout.Values
  {
    var r := RemoveStale(layout, order, registry);
    RemoveStaleShape(layout, order, registry);
    forall v | v in r.Values ensures v in layout.Values {
      var k :| k in r && r[k] == v;
      match LastStale(order, LiveDescs(registry))
      case None =>
      case Some(d) =>
        assert v == layout[if k == Target(registry) then d else k];
    }
  }

  /** The repair never adds an entry: the target gains at most one key while at least one stale key goes. */
  lemma RemoveStaleNeverGrows(layout: Layout, order: seq<string>, registry: seq<Monitor>)
    requires IsEnumeration(order, layout.Keys)
    requires EnabledMonitors(registry) != [] || layout == map[]
    ensures |RemoveStale(layout, order, registry)| <= |layout|
  {
    var live := LiveDescs(registry);
    RemoveStaleShape(layout, order, registry);
    match LastStale(order, live)
    case None =>
    case Some(d) =>
      DropAndAddSize(layout, layout.Keys - live, Target(registry), layout[d]);
  }

  /** Dropping a non-empty set of keys and then setting one key leaves no more entries than before. */
  lemma DropAndAddSize(m: Layout, drop: set<string>, t: string, v: int)
    requires drop <= m.Keys && drop != {}
    ensures |(m - drop)[t := v]| <= |m|
  {
    var kept := m.Keys - drop;
    assert (m - drop)[t := v].Keys == kept + {t};
    assert |m.Keys| == |kept| + |drop| by {
      assert m.Keys == kept + drop;
      assert kept * drop == {};
    }
    assert |kept + {t}| <= |kept| + 1;
  }

  /** Entries of enabled monitors keep their ids, except the target's when some stale entry was moved onto it. */
  lemma RemoveStaleKeepsLiveEntries(layout: Layout, order: seq<string>, registry: seq<Monitor>)
    requires IsEnumeration(order, layout.Keys)
    requires EnabledMonitors(registry) != [] || layout == map[]
    ensures var live := LiveDescs(registry);
            var r := RemoveStale(layout, order, registry);
            forall k :: k in layout && k in live && (layout.Keys <= live || k != Target(registry)) ==>
              k in r && r[k] == layout[k]
  {
    RemoveStaleShape(layout, order, registry);
    if LastStale(order, LiveDescs(registry)).None? {
      assert layout.Keys - LiveDescs(registry) == StaleIn(order, LiveDescs(registry));
    }
  }

  // ----- Removal of one output from the active layout -----

  /**
   The active layout after removing the output `gone`: its entry moves to the
   least-loaded enabled monitor. If that monitor is `gone` itself, the entry is
   simply dropped, because the erase comes after the move.
   */
  function RemoveOutput(layout: Layout, gone: string, registry: seq<Monitor>): (r: Layout)
    requires gone in layout ==> EnabledMonitors(registry) != []
    ensures gone !in r
    ensures |r| <= |layout|
    ensures gone !in layout ==> r == layout
    ensures gone in layout ==>
              var t := Target(registry);
              && (forall k :: k in layout && k != gone && k != t ==> k in r && r[k] == layout[k])
              && (t != gone ==> t in r && r[t] == layout[gone] && r.Keys == layout.Keys - {gone} + {t})
              && (t == gone ==> r == layout - {gone})
  {
    if gone in layout then
      var t := Target(registry);
      MovedEntry(layout, gone, t);
      layout[t := layout[gone]] - {gone}
    else layout
  }

  /** What moving the entry of `gone` onto `t` leaves behind. */
  lemma MovedEntry(layout: Layout, gone: string, t: string)
    requires gone in layout
    ensures var r := layout[t := layout[gone]] - {gone};
            && gone !in r
            && |r| <= |layout|
            && (forall k :: k in layout && k != gone && k != t ==> k in r && r[k] == layout[k])
            && (t != gone ==> t in r && r[t] == layout[gone] && r.Keys == layout.Keys - {gone} + {t})
            && (t == gone ==> r == layout - {gone})
  {
    MoveEntrySize(layout, gone, t, layout[gone]);
  }
}
