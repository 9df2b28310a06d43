/**
 The compositor's monitor registry, as the virtual desk sees it: an ordered
 sequence of monitor records. Each record carries the output's description
 (which may be missing), whether the monitor is enabled, and how many windows
 sit on its active workspace.
 */
module Registry {

  datatype Option<+T> = None | Some(value: T)

  /** One entry of the compositor's monitor list. */
  datatype Monitor = Monitor(description: Option<string>, enabled: bool, windows: nat)

  /** The stable descriptor of a monitor; the empty string when the output has no description. */
  function MonitorDesc(m: Monitor): string
  {
    match m.description
    case Some(d) => d
    case None => ""
  }

  /** The enabled monitors, in registry order (an order-preserving filter). */
  function EnabledMonitors(registry: seq<Monitor>): (r: seq<Monitor>)
    ensures |r| <= |registry|
    ensures forall m :: m in r <==> m in registry && m.enabled
  {
    if registry == [] then []
    else (if registry[0].enabled then [registry[0]] else []) + EnabledMonitors(registry[1..])
  }

  /** Filtering commutes with concatenation: the enabled monitors keep their registry order. */
  lemma {:induction false} EnabledMonitorsKeepOrder(a: seq<Monitor>, b: seq<Monitor>)
    ensures EnabledMonitors(a + b) == EnabledMonitors(a) + EnabledMonitors(b)
  {
    if a == [] {
      assert a + b == b;
    } else {
      assert (a + b)[1..] == a[1..] + b;
      EnabledMonitorsKeepOrder(a[1..], b);
    }
  }

  /** No element occurs twice. */
  predicate Distinct(s: seq<string>)
  {
    forall i, j :: 0 <= i < j < |s| ==> s[i] != s[j]
  }

  /** The descriptors of a list of monitors, in list order. */
  function Descs(ms: seq<Monitor>): (ds: seq<string>)
    ensures |ds| == |ms|
    ensures forall i :: 0 <= i < |ms| ==> ds[i] == MonitorDesc(ms[i])
  {
    seq(|ms|, i requires 0 <= i < |ms| => MonitorDesc(ms[i]))
  }

  /** The set of descriptors of a list of monitors (one per monitor, duplicates collapse). */
  function DescSet(ms: seq<Monitor>): (s: set<string>)
    ensures forall i :: 0 <= i < |ms| ==> MonitorDesc(ms[i]) in s
    ensures forall d :: d in s ==> d in Descs(ms)
  {
    if ms == [] then {}
    else
      var rest := DescSet(ms[1..]);
      assert forall d :: d in Descs(ms[1..]) ==> d in Descs(ms) by {
        forall d | d in Descs(ms[1..]) ensures d in Descs(ms) {
          var i :| 0 <= i < |ms| - 1 && Descs(ms[1..])[i] == d;
          assert Descs(ms)[i + 1] == d;
        }
      }
      {MonitorDesc(ms[0])} + rest
  }

  /** At most one element per monitor; exactly one when the descriptors are distinct. */
  lemma {:induction false} DescSetSize(ms: seq<Monitor>)
    ensures |DescSet(ms)| <= |ms|
    ensures Distinct(Descs(ms)) ==> |DescSet(ms)| == |ms|
  {
    if ms != [] {
      var rest := ms[1..];
      DescSetSize(rest);
      if Distinct(Descs(ms)) {
        assert Descs(rest) == Descs(ms)[1..];
        assert MonitorDesc(ms[0]) == Descs(ms)[0];
        assert MonitorDesc(ms[0]) !in Descs(rest);
      }
    }
  }

  /** Descriptors of the currently enabled monitors: the set a stored descriptor is checked against. */
  function LiveDescs(registry: seq<Monitor>): set<string>
  {
    DescSet(EnabledMonitors(registry))
  }

  /**
   Index of the least-loaded monitor: the fewest windows, and among equals the
   first one, since a later monitor only replaces the running choice when it is
   strictly less loaded.
   */
  function LeastLoadedIndex(ms: seq<Monitor>): (k: nat)
    requires |ms| > 0
    ensures k < |ms|
    ensures forall i :: 0 <= i < |ms| ==> ms[k].windows <= ms[i].windows
    ensures forall i :: 0 <= i < k ==> ms[i].windows > ms[k].windows
  {
    if |ms| == 1 then 0
    else
      var k := LeastLoadedIndex(ms[..|ms| - 1]);
      if ms[|ms| - 1].windows < ms[k].windows then |ms| - 1 else k
  }

  /** The first monitor with the fewest windows is unique: any index with both properties is the chosen one. */
  lemma LeastLoadedUnique(ms: seq<Monitor>, k: nat)
    requires k < |ms|
    requires forall i :: 0 <= i < |ms| ==> ms[k].windows <= ms[i].windows
    requires forall i :: 0 <= i < k ==> ms[i].windows > ms[k].windows
    ensures LeastLoadedIndex(ms) == k
  {
    var c := LeastLoadedIndex(ms);
    assert ms[c].windows <= ms[k].windows && ms[k].windows <= ms[c].windows;
  }

  /** The descriptor that a repair moves a workspace onto: the least-loaded enabled monitor's. */
  function Target(registry: seq<Monitor>): (t: string)
    requires EnabledMonitors(registry) != []
    ensures t in LiveDescs(registry)
  {
    var en := EnabledMonitors(registry);
    MonitorDesc(en[LeastLoadedIndex(en)])
  }

  /** With window counts A:3, B:0, C:5 the least-loaded monitor is B. */
  lemma LeastLoadedExample()
    ensures var ms := [Monitor(Some("A"), true, 3), Monitor(Some("B"), true, 0), Monitor(Some("C"), true, 5)];
            LeastLoadedIndex(ms) == 1
  {
    var ms := [Monitor(Some("A"), true, 3), Monitor(Some("B"), true, 0), Monitor(Some("C"), true, 5)];
    var k := LeastLoadedIndex(ms);
    assert ms[k].windows <= ms[1].windows;
  }
}
