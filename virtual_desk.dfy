/**
 One virtual desk: the layouts it remembers, which of them is active, and
 whether that choice still reflects the current monitors. The compositor's
 monitor list is passed to every operation that consults it.
 */
module VirtualDesks {
  import opened Registry
  import opened Layouts

  /**
   The keys of a layout in the order a hash map hands them out. That order is
   unspecified, so the model picks each next key arbitrarily.
   */
  method IterationOrder(l: Layout) returns (keys: seq<string>)
    ensures IsEnumeration(keys, l.Keys)
  {
    keys := [];
    var rest := l.Keys;
    while rest != {}
      invariant Distinct(keys)
      invariant rest <= l.Keys
      invariant forall k :: k in keys ==> k in l && k !in rest
      invariant forall k :: k in l ==> k in keys || k in rest
      decreases |rest|
    {
      var k :| k in rest;
      keys := keys + [k];
      rest := rest - {k};
    }
  }

  class VirtualDesk {
    const id: int
    const name: string
    var layouts: seq<Layout>
    /** Index of the active layout. */
    var activeIdx: nat
    /** Whether `activeIdx` still reflects the current monitor configuration. */
    var activeIsValid: bool

    /** The layout list is never empty and the active index is in range. */
    predicate Valid()
      reads this
    {
      |layouts| > 0 && activeIdx < |layouts|
    }

    /**
     What a search under `conf` leaves behind, starting from the layout list
     `before`. With the `none` policy only a freshly generated layout remains.
     Otherwise the first qualifying stored layout becomes active (and, under the
     `size` policy, is repaired in place, scanning its keys in `order`); when none
     qualifies a freshly generated layout is appended and becomes active.
     */
    ghost predicate Searched(conf: RememberLayoutConf, before: seq<Layout>, order: seq<string>, registry: seq<Monitor>)
      reads this
    {
      var enabled := EnabledMonitors(registry);
      var generated := GenerateLayout(id, registry);
      if conf == RememberNone then
        layouts == [generated] && activeIdx == 0
      else
        match FirstFit(conf, before, enabled)
        case None => layouts == before + [generated] && activeIdx == |before|
        case Some(k) =>
          && activeIdx == k
          && if conf == RememberMonitors then layouts == before
             else IsEnumeration(order, before[k].Keys) && layouts == before[k := Adapt(before[k], order, registry)]
    }

    /** A new desk starts with one layout generated for the monitors enabled now. */
    constructor (id: int, name: string, registry: seq<Monitor>)
      ensures Valid() && this.id == id && this.name == name
      ensures layouts == [GenerateLayout(id, registry)] && activeIdx == 0 && !activeIsValid
    {
      this.id := id;
      this.name := name;
      activeIsValid := false;
      new;
      var generated := GenerateCurrentMonitorLayout(registry);
      layouts := [generated];
      activeIdx := 0;
    }

    /**
     The active layout. A valid cache is answered without changing anything;
     otherwise the cache is marked valid and the search runs once.
     */
    method ActiveLayout(conf: RememberLayoutConf, registry: seq<Monitor>) returns (l: Layout, ghost order: seq<string>)
      requires Valid()
      modifies this
      ensures Valid() && activeIsValid && l == layouts[activeIdx]
      ensures old(activeIsValid) ==> layouts == old(layouts) && activeIdx == old(activeIdx)
      ensures !old(activeIsValid) ==> Searched(conf, old(layouts), order, registry)
    {
      order := [];
      if !activeIsValid {
        activeIsValid := true;
        l, order := SearchActiveLayout(conf, registry);
      }
      l := layouts[activeIdx];
    }

    /** Chooses the active layout under the remember-layout policy `conf`. */
    method SearchActiveLayout(conf: RememberLayoutConf, registry: seq<Monitor>) returns (l: Layout, ghost order: seq<string>)
      requires Valid()
      modifies this
      ensures Valid() && l == layouts[activeIdx] && activeIsValid == old(activeIsValid)
      ensures Searched(conf, old(layouts), order, registry)
    {
      order := [];
      var monitors := EnabledMonitors(registry);
      match conf {
        case RememberMonitors =>
          var found := FindLayoutByMonitors(monitors);
          if found.Some? {
            activeIdx := found.value;
            l := layouts[activeIdx];
            return;
          }
        case RememberSize =>
          var found := FindLayoutBySize(monitors);
          if found.Some? {
            order := CheckAndAdaptLayout(found.value, registry);
            activeIdx := found.value;
            l := layouts[found.value];
            return;
          }
        case RememberNone =>
          layouts := [];
      }
      var generated := GenerateCurrentMonitorLayout(registry);
      layouts := layouts + [generated];
      activeIdx := |layouts| - 1;
      l := layouts[activeIdx];
    }

    /**
     The scan of the monitor-set policy: the index of the first stored layout
     whose key set, intersected with the enabled descriptors, keeps every key.
     */
    method FindLayoutByMonitors(monitors: seq<Monitor>) returns (found: Option<nat>)
      ensures found == FirstFit(RememberMonitors, layouts, monitors)
    {
      var stored := layouts;
      var currentSet := DescSet(monitors);
      var idx := 0;
      while idx < |stored|
        invariant 0 <= idx <= |stored|
        invariant forall i :: 0 <= i < idx ==> !Fits(RememberMonitors, stored[i], monitors)
      {
        var keys := stored[idx].Keys;
        if SharedCount(keys, currentSet) == |keys| {
          FirstFitAt(RememberMonitors, stored, monitors, idx);
          return Some(idx);
        }
        idx := idx + 1;
      }
      FirstFitAt(RememberMonitors, stored, monitors, idx);
      return None;
    }

    /**
     The scan of the size policy: the index of the first stored layout with as
     many entries as there are enabled monitors.
     */
    method FindLayoutBySize(monitors: seq<Monitor>) returns (found: Option<nat>)
      ensures found == FirstFit(RememberSize, layouts, monitors)
    {
      var stored := layouts;
      var idx := 0;
      while idx < |stored|
        invariant 0 <= idx <= |stored|
        invariant forall i :: 0 <= i < idx ==> !Fits(RememberSize, stored[i], monitors)
      {
        if |stored[idx]| == |monitors| {
          FirstFitAt(RememberSize, stored, monitors, idx);
          return Some(idx);
        }
        idx := idx + 1;
      }
      FirstFitAt(RememberSize, stored, monitors, idx);
      return None;
    }

    /** Points the active layout's entry for `monitor` at `workspaceId`. */
    method ChangeWorkspaceOnMonitor(workspaceId: int, monitor: Monitor)
      requires Valid()
      modifies this
      ensures Valid() && activeIdx == old(activeIdx) && activeIsValid == old(activeIsValid)
      ensures layouts == old(layouts)[activeIdx := old(layouts[activeIdx])[MonitorDesc(monitor) := workspaceId]]
    {
      layouts := layouts[activeIdx := layouts[activeIdx][MonitorDesc(monitor) := workspaceId]];
    }

    /** Marks the cached active layout as stale; nothing else changes. */
    method InvalidateActiveLayout()
      requires Valid()
      modifies this
      ensures Valid() && !activeIsValid
      ensures layouts == old(layouts) && activeIdx == old(activeIdx)
    {
      activeIsValid := false;
    }

    /** Replaces the active layout by one generated for the current monitors. */
    method ResetLayout(registry: seq<Monitor>)
      requires Valid()
      modifies this
      ensures Valid() && activeIdx == old(activeIdx) && activeIsValid == old(activeIsValid)
      ensures layouts == old(layouts)[activeIdx := GenerateLayout(id, registry)]
    {
      var generated := GenerateCurrentMonitorLayout(registry);
      layouts := layouts[activeIdx := generated];
    }

    /**
     Runs the removal of `output` once per stored layout, but every run works on
     the active layout. After the first run the output is no longer a key, so the
     net effect is one removal from the active layout; no other layout changes.
     */
    method DeleteInvalidMonitorOnAllLayouts(output: Monitor, registry: seq<Monitor>)
      requires Valid()
      requires MonitorDesc(output) in layouts[activeIdx] ==> EnabledMonitors(registry) != []
      modifies this
      ensures Valid() && activeIdx == old(activeIdx) && activeIsValid == old(activeIsValid)
      ensures layouts == old(layouts)[activeIdx := RemoveOutput(old(layouts[activeIdx]), MonitorDesc(output), registry)]
    {
      var gone := MonitorDesc(output);
      var count := |layouts|;
      var k := 0;
      while k < count
        invariant 0 <= k <= count
        invariant Valid() && activeIdx == old(activeIdx) && activeIsValid == old(activeIsValid)
        invariant layouts == old(layouts)[activeIdx := if k == 0 then old(layouts[activeIdx])
                                                     else RemoveOutput(old(layouts[activeIdx]), gone, registry)]
      {
        DeleteInvalidMonitor(output, registry);
        k := k + 1;
      }
    }

    /**
     Removes `output` from the active layout: its workspace moves to the
     least-loaded enabled monitor, overwriting that monitor's entry.
     */
    method DeleteInvalidMonitor(output: Monitor, registry: seq<Monitor>)
      requires Valid()
      requires MonitorDesc(output) in layouts[activeIdx] ==> EnabledMonitors(registry) != []
      modifies this
      ensures Valid() && activeIdx == old(activeIdx) && activeIsValid == old(activeIsValid)
      ensures layouts == old(layouts)[activeIdx := RemoveOutput(old(layouts[activeIdx]), MonitorDesc(output), registry)]
    {
      var copy := layouts[activeIdx];
      var keys := IterationOrder(copy);
      var gone := MonitorDesc(output);
      var i := 0;
      while i < |keys|
        invariant 0 <= i <= |keys|
        invariant Valid() && activeIdx == old(activeIdx) && activeIsValid == old(activeIsValid)
        invariant layouts == old(layouts)[activeIdx := if gone in keys[..i] then RemoveOutput(copy, gone, registry) else copy]
      {
        var desc := keys[i];
        assert keys[..i + 1] == keys[..i] + [desc];
        if gone == desc {
          assert gone !in keys[..i];
          var newMonitor := FirstAvailableMonitor(EnabledMonitors(registry), registry);
          layouts := layouts[activeIdx := layouts[activeIdx][MonitorDesc(newMonitor.value) := copy[desc]] - {desc}];
        }
        i := i + 1;
      }
      assert keys[..|keys|] == keys;
    }

    /**
     Moves every entry of the active layout whose monitor is not enabled onto the
     least-loaded enabled monitor, scanning the keys in `order`.
     */
    method DeleteInvalidMonitors(registry: seq<Monitor>) returns (ghost order: seq<string>)
      requires Valid()
      requires EnabledMonitors(registry) != [] || layouts[activeIdx] == map[]
      modifies this
      ensures Valid() && activeIdx == old(activeIdx) && activeIsValid == old(activeIsValid)
      ensures IsEnumeration(order, old(layouts[activeIdx]).Keys)
      ensures layouts == old(layouts)[activeIdx := RemoveStale(old(layouts[activeIdx]), order, registry)]
    {
      var copy := layouts[activeIdx];
      var enabledMonitors := EnabledMonitors(registry);
      var enabledMonitorsDesc := DescSet(enabledMonitors);
      var keys := IterationOrder(copy);
      order := keys;
      var repaired := MoveStaleEntries(copy, keys, enabledMonitors, enabledMonitorsDesc, registry);
      layouts := layouts[activeIdx := repaired];
    }

    /**
     The scan of `DeleteInvalidMonitors` over the snapshot `copy`, visiting its
     keys in `keys` order: each key outside `enabledMonitorsDesc` hands its
     workspace to the least-loaded enabled monitor and is erased.
     */
    method MoveStaleEntries(copy: Layout, keys: seq<string>, enabledMonitors: seq<Monitor>,
                            enabledMonitorsDesc: set<string>, registry: seq<Monitor>) returns (cur: Layout)
      requires forall j :: 0 <= j < |keys| ==> keys[j] in copy
      requires enabledMonitors == EnabledMonitors(registry) && enabledMonitorsDesc == LiveDescs(registry)
      requires enabledMonitors != [] || copy == map[]
      ensures cur == RemoveStale(copy, keys, registry)
    {
      ghost var t := if enabledMonitors != [] then Target(registry) else "";
      cur := copy;
      var i := 0;
      assert keys[0..] == keys;
      while i < |keys|
        invariant 0 <= i <= |keys|
        invariant enabledMonitors == [] ==> cur == copy
        invariant RemoveStaleFrom(copy, keys[i..], cur, enabledMonitorsDesc, t)
               == RemoveStaleFrom(copy, keys, copy, enabledMonitorsDesc, t)
      {
        var desc := keys[i];
        ghost var before := cur;
        RemoveStaleFromStep(copy, keys, i, cur, enabledMonitorsDesc, t);
        if desc !in enabledMonitorsDesc {
          assert enabledMonitors != [] by {
            assert desc in copy;
          }
          var newMonitor := FirstAvailableMonitor(enabledMonitors, registry);
          cur := cur[MonitorDesc(newMonitor.value) := copy[desc]] - {desc};
          assert cur == before[t := copy[desc]] - {desc};
        }
        i := i + 1;
      }
      assert keys[i..] == [];
    }

    /**
     A layout for the monitors enabled now: the j-th enabled monitor, in registry
     order, gets the j-th id of this desk's block, which starts at
     `(id - 1) * n + 1` for `n` enabled monitors.
     */
    method GenerateCurrentMonitorLayout(registry: seq<Monitor>) returns (layout: Layout)
      ensures layout == GenerateLayout(id, registry)
    {
      layout := map[];
      var monitors := EnabledMonitors(registry);
      var vdeskFirstWorkspace := (id - 1) * |monitors| + 1;
      BlockStartValue(id, |monitors|);
      ghost var ds := Descs(monitors);
      var j := 0;
      var i := vdeskFirstWorkspace;
      while i < vdeskFirstWorkspace + |monitors|
        invariant 0 <= j <= |monitors| && i == vdeskFirstWorkspace + j
        invariant layout == Numbered(ds[..j], vdeskFirstWorkspace)
      {
        assert ds[..j + 1][..j] == ds[..j];
        layout := layout[MonitorDesc(monitors[j]) := i];
        j := j + 1;
        i := i + 1;
      }
      assert ds[..j] == ds;
    }

    /**
     The enabled monitor with the fewest windows, the first one among equals;
     None when no monitor is enabled. The candidate list passed in is not
     consulted: the enabled monitors are queried afresh.
     */
    method FirstAvailableMonitor(candidates: seq<Monitor>, registry: seq<Monitor>) returns (best: Option<Monitor>)
      ensures var ms := EnabledMonitors(registry);
              && (best.None? <==> ms == [])
              && (best.Some? ==> best.value == ms[LeastLoadedIndex(ms)])
      ensures best.Some? ==> MonitorDesc(best.value) == Target(registry)
    {
      var ms := EnabledMonitors(registry);
      best := None;
      ghost var k := 0;
      var i := 0;
      while i < |ms|
        invariant 0 <= i <= |ms|
        invariant best.None? <==> i == 0
        invariant i > 0 ==> k < i && best == Some(ms[k])
        invariant i > 0 ==> forall j :: 0 <= j < i ==> ms[k].windows <= ms[j].windows
        invariant i > 0 ==> forall j :: 0 <= j < k ==> ms[j].windows > ms[k].windows
      {
        if best.None? || ms[i].windows < best.value.windows {
          best := Some(ms[i]);
          k := i;
        }
        i := i + 1;
      }
      if ms != [] {
        LeastLoadedUnique(ms, k);
      }
    }

    /**
     Repairs layout `idx` against the enabled monitors, scanning its keys in
     `order`: an entry whose monitor is not enabled moves to the first enabled
     monitor that is not yet a key (and the repair stops there), or is dropped
     when there is none.
     */
    method CheckAndAdaptLayout(idx: nat, registry: seq<Monitor>) returns (ghost order: seq<string>)
      requires Valid() && idx < |layouts|
      modifies this
      ensures Valid() && activeIdx == old(activeIdx) && activeIsValid == old(activeIsValid)
      ensures IsEnumeration(order, old(layouts[idx]).Keys)
      ensures layouts == old(layouts)[idx := Adapt(old(layouts[idx]), order, registry)]
    {
      var copy := layouts[idx];
      var keys := IterationOrder(copy);
      order := keys;
      var repaired := AdaptEntries(copy, keys, registry);
      layouts := layouts[idx := repaired];
    }

    /**
     The scan of `CheckAndAdaptLayout` over the snapshot `copy`, visiting its keys
     in `keys` order and editing the working layout `cur`.
     */
    method AdaptEntries(copy: Layout, keys: seq<string>, registry: seq<Monitor>) returns (cur: Layout)
      requires forall j :: 0 <= j < |keys| ==> keys[j] in copy
      ensures cur == Adapt(copy, keys, registry)
    {
      var live := LiveDescs(registry);
      ghost var ds := Descs(EnabledMonitors(registry));
      cur := copy;
      var i := 0;
      assert keys[0..] == keys;
      while i < |keys|
        invariant 0 <= i <= |keys|
        invariant AdaptFrom(copy, keys[i..], cur, live, ds) == Adapt(copy, keys, registry)
      {
        var desc := keys[i];
        AdaptFromStep(copy, keys, i, cur, live, ds);
        if desc !in live {
          var newMonitor := FirstNewMonitor(cur, registry);
          if newMonitor.Some? {
            cur := cur[newMonitor.value := copy[desc]] - {desc};
            return;
          }
          cur := cur - {desc};
        }
        i := i + 1;
      }
    }

    /**
     The inner scan of `CheckAndAdaptLayout`: the first enabled monitor, in
     registry order, whose descriptor is not yet a key of `cur`.
     */
    method FirstNewMonitor(cur: Layout, registry: seq<Monitor>) returns (found: Option<string>)
      ensures found == FirstUnused(Descs(EnabledMonitors(registry)), cur.Keys)
    {
      var monitors := EnabledMonitors(registry);
      ghost var ds := Descs(monitors);
      var j := 0;
      while j < |monitors|
        invariant 0 <= j <= |monitors|
        invariant FirstUnused(ds[j..], cur.Keys) == FirstUnused(ds, cur.Keys)
      {
        FirstUnusedStep(ds, j, cur.Keys);
        var monDesc := MonitorDesc(monitors[j]);
        if monDesc !in cur {
          return Some(monDesc);
        }
        j := j + 1;
      }
      return None;
    }
  }
}
