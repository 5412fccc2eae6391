/** The multi-experiment comparison table (`get_dataframe_from_experiments`) and the filtered
    experiment listing.

    The table has the columns `Type`, `Namespace`, `Name` and one labelled column per experiment
    that has a result. Each experiment contributes, per node it flags, that node's median
    (tuple position 3), visiting its nodes in sorted order. A node's row is its three key
    fields followed by its contributions in experiment order, padded at the END with the fill
    value: contributions are positional, not aligned to the experiment they came from. That is
    the behaviour of the source; `AlignedTable` is the aligned table the column labels promise.
    Building the source's table raises when a labelled experiment's data set has no source
    name, and when no node receives a value from every labelled experiment: pandas widens
    ragged rows only to the longest one, so the header then has more columns than the data.

    Rounding to four decimals and min-max normalisation act on floating-point values and are
    not modelled; clustering labels are taken as input. */
module Comparison {
  import opened Wrappers
  import Filters
  import Text
  import Sorting
  import Experiments

  type Node = Experiments.Node
  type Scored<V> = Experiments.Scored<V>
  type Experiment<V> = Experiments.Experiment<V>

  // ---------------------------------------------------------------- node order

  /** Python's ordering of (function, namespace, name) tuples. */
  predicate NodeLe(a: Node, b: Node) {
    if a.func != b.func then Text.LexLe(a.func, b.func)
    else if a.namespace != b.namespace then Text.LexLe(a.namespace, b.namespace)
    else Text.LexLe(a.name, b.name)
  }

  lemma NodeLeTotal(a: Node, b: Node)
    ensures NodeLe(a, b) || NodeLe(b, a)
  {
    Text.LexLeTotal(a.func, b.func);
    Text.LexLeTotal(a.namespace, b.namespace);
    Text.LexLeTotal(a.name, b.name);
  }

  /** Strings differing in a leading field compare as that field does, whatever follows. */
  lemma LexStep(x: string, y: string, z: string)
    requires Text.LexLe(x, y) && Text.LexLe(y, z)
    ensures Text.LexLe(x, z)
    ensures x == z ==> x == y
  {
    Text.LexLeTransitive(x, y, z);
    if x == z {
      Text.LexLeAntisymmetric(x, y);
    }
  }

  lemma NodeLeTransitive(a: Node, b: Node, c: Node)
    requires NodeLe(a, b) && NodeLe(b, c)
    ensures NodeLe(a, c)
  {
    if a.func != b.func || b.func != c.func {
      if a.func != b.func && b.func != c.func {
        LexStep(a.func, b.func, c.func);
      }
    } else if a.namespace != b.namespace || b.namespace != c.namespace {
      if a.namespace != b.namespace && b.namespace != c.namespace {
        LexStep(a.namespace, b.namespace, c.namespace);
      }
    } else {
      Text.LexLeTransitive(a.name, b.name, c.name);
    }
  }

  /** The comparison `sorted` uses on an experiment's (node, scores) pairs. Nodes are distinct
      within one result, so the scores never take part. */
  function ByNode<V>(): (Scored<V>, Scored<V>) -> bool {
    (a: Scored<V>, b: Scored<V>) => NodeLe(a.node, b.node)
  }

  lemma ByNodeIsTotalPreorder<V(!new)>()
    ensures Sorting.TotalPreorder(ByNode<V>())
  {
    forall a: Scored<V>, b: Scored<V> ensures NodeLe(a.node, b.node) || NodeLe(b.node, a.node) {
      NodeLeTotal(a.node, b.node);
    }
    forall a: Scored<V>, b: Scored<V>, c: Scored<V> | NodeLe(a.node, b.node) && NodeLe(b.node, c.node)
      ensures NodeLe(a.node, c.node)
    {
      NodeLeTransitive(a.node, b.node, c.node);
    }
  }

  // ---------------------------------------------------------------- distinct nodes

  /** No node is scored twice, as in the dictionary a result is stored from. */
  ghost predicate DistinctNodes<V>(s: seq<Scored<V>>) {
    forall i, j :: 0 <= i < j < |s| ==> s[i].node != s[j].node
  }

  lemma {:induction false} OccursOnce<V>(s: seq<Scored<V>>, p: int)
    requires DistinctNodes(s) && 0 <= p < |s|
    ensures multiset(s)[s[p]] == 1
  {
    var x := s[p];
    assert s == s[..p] + [x] + s[p + 1..];
    assert x !in s[..p];
    var tail := s[p + 1..];
    forall k | 0 <= k < |tail| ensures tail[k] != x {
      assert tail[k] == s[p + 1 + k];
    }
    assert x !in tail;
    assert multiset(s) == multiset(s[..p]) + multiset{x} + multiset(s[p + 1..]);
  }

  lemma OccursTwice<V>(s: seq<Scored<V>>, i: int, j: int)
    requires 0 <= i < j < |s| && s[i] == s[j]
    ensures multiset(s)[s[i]] >= 2
  {
    assert s == s[..j] + s[j..];
    assert s[i] == s[..j][i];
    assert s[j] == s[j..][0];
    assert multiset(s) == multiset(s[..j]) + multiset(s[j..]);
  }

  /** A permutation of a list without repeated nodes has none either. */
  lemma PermutationKeepsDistinct<V>(a: seq<Scored<V>>, b: seq<Scored<V>>)
    requires multiset(a) == multiset(b) && DistinctNodes(a)
    ensures DistinctNodes(b)
  {
    forall i, j | 0 <= i < j < |b| ensures b[i].node != b[j].node {
      if b[i].node == b[j].node {
        assert b[i] in multiset(a);
        assert b[j] in multiset(a);
        var p :| 0 <= p < |a| && a[p] == b[i];
        var q :| 0 <= q < |a| && a[q] == b[j];
        if p == q {
          OccursTwice(b, i, j);
          OccursOnce(a, p);
        }
      }
    }
  }

  // ---------------------------------------------------------------- contributions

  const MedianIndex := 3

  /** Every tuple has a median position. */
  ghost predicate Wide<V>(s: seq<Scored<V>>) {
    forall i :: 0 <= i < |s| ==> MedianIndex < |s[i].scores|
  }

  /** The medians recorded for node `k`, in list order. */
  function MediansFor<V>(s: seq<Scored<V>>, k: Node): (r: seq<V>)
    requires Wide(s)
    ensures |r| <= |s|
  {
    if |s| == 0 then []
    else (if s[0].node == k then [s[0].scores[MedianIndex]] else []) + MediansFor(s[1..], k)
  }

  /** In a list without repeated nodes a node has at most one median, and it has one exactly
      when the node occurs. */
  lemma {:induction false} MediansForDistinct<V>(s: seq<Scored<V>>, k: Node)
    requires Wide(s) && DistinctNodes(s)
    ensures |MediansFor(s, k)| <= 1
    ensures forall i :: 0 <= i < |s| && s[i].node == k ==> MediansFor(s, k) == [s[i].scores[MedianIndex]]
    ensures (forall i :: 0 <= i < |s| ==> s[i].node != k) ==> MediansFor(s, k) == []
  {
    if |s| > 0 {
      assert forall i :: 1 <= i < |s| ==> s[i] == s[1..][i - 1];
      MediansForDistinct(s[1..], k);
      if s[0].node == k {
        assert forall i :: 0 <= i < |s[1..]| ==> s[1..][i].node != k;
      }
    }
  }

  /** Reordering a list without repeated nodes does not change any node's medians. */
  lemma MediansForPermutation<V>(a: seq<Scored<V>>, b: seq<Scored<V>>, k: Node)
    requires multiset(a) == multiset(b) && DistinctNodes(a) && Wide(a) && Wide(b)
    ensures MediansFor(a, k) == MediansFor(b, k)
  {
    PermutationKeepsDistinct(a, b);
    MediansForDistinct(a, k);
    MediansForDistinct(b, k);
    if i :| 0 <= i < |a| && a[i].node == k {
      assert a[i] in multiset(b);
      var q :| 0 <= q < |b| && b[q] == a[i];
    } else {
      forall i | 0 <= i < |b| ensures b[i].node != k {
        assert b[i] in multiset(a);
      }
    }
  }

  /** The flagged entries of an experiment's result (its data list). */
  function FlaggedEntries<V>(e: Experiment<V>, truthy: V -> bool): (r: seq<Scored<V>>)
    requires e.result.Some? && Wide(e.result.value)
    ensures Wide(r)
    ensures DistinctNodes(e.result.value) ==> DistinctNodes(r)
    ensures forall i :: 0 <= i < |r| ==> r[i] in e.result.value && truthy(r[i].scores[0])
    ensures forall i :: 0 <= i < |e.result.value| && truthy(e.result.value[i].scores[0]) ==> e.result.value[i] in r
  {
    DataListKeepsDistinct(e.result.value, truthy);
    Experiments.DataList(e.result.value, truthy)
  }

  lemma {:induction false} DataListKeepsDistinct<V>(s: seq<Scored<V>>, truthy: V -> bool)
    requires Wide(s)
    ensures DistinctNodes(s) ==> DistinctNodes(Experiments.DataList(s, truthy))
  {
    if |s| > 0 && DistinctNodes(s) {
      assert forall i :: 1 <= i < |s| ==> s[i] == s[1..][i - 1];
      DataListKeepsDistinct(s[1..], truthy);
    }
  }

  /** The flagged entries in the order `sorted` visits them. */
  function SortedData<V(!new)>(e: Experiment<V>, truthy: V -> bool): (r: seq<Scored<V>>)
    requires e.result.Some? && Wide(e.result.value)
    ensures Wide(r)
    ensures multiset(r) == multiset(FlaggedEntries(e, truthy))
    ensures Sorting.SortedBy(r, ByNode())
  {
    ByNodeIsTotalPreorder<V>();
    var flagged := FlaggedEntries(e, truthy);
    var r := Sorting.InsertionSort(flagged, ByNode());
    assert forall i :: 0 <= i < |r| ==> r[i] in multiset(flagged);
    r
  }

  /** Results as the source stores them: every tuple has a median and no node is repeated. */
  ghost predicate WellFormed<V>(exps: seq<Experiment<V>>) {
    forall i :: 0 <= i < |exps| && exps[i].result.Some? ==>
      Wide(exps[i].result.value) && DistinctNodes(exps[i].result.value)
  }

  lemma WellFormedTail<V>(exps: seq<Experiment<V>>)
    requires WellFormed(exps) && 0 < |exps|
    ensures WellFormed(exps[1..])
  {
    assert forall i :: 0 <= i < |exps[1..]| ==> exps[1..][i] == exps[i + 1];
  }

  /** What node `k` receives, experiment by experiment, in input order: one median from each
      experiment with a result that flags `k`. This is the reference the table is checked
      against; it does not depend on the order `sorted` imposes. */
  ghost function Contributed<V>(exps: seq<Experiment<V>>, truthy: V -> bool, k: Node): seq<V>
    requires WellFormed(exps)
  {
    if |exps| == 0 then []
    else
      WellFormedTail(exps);
      (if exps[0].result.Some? then MediansFor(FlaggedEntries(exps[0], truthy), k) else [])
        + Contributed(exps[1..], truthy, k)
  }

  /** The experiments that get a column: those with a result, in input order. */
  function Contributing<V>(exps: seq<Experiment<V>>): (r: seq<Experiment<V>>)
    ensures |r| <= |exps|
    ensures forall i :: 0 <= i < |r| ==> r[i].result.Some?
    ensures WellFormed(exps) ==> WellFormed(r)
  {
    if |exps| == 0 then []
    else
      var rest := Contributing(exps[1..]);
      if exps[0].result.Some? then
        assert forall i :: 1 <= i < |[exps[0]] + rest| ==> ([exps[0]] + rest)[i] == rest[i - 1];
        [exps[0]] + rest
      else rest
  }

  /** Each experiment gives a node at most one value, so no row is wider than the columns. */
  lemma {:induction false} ContributedFits<V>(exps: seq<Experiment<V>>, truthy: V -> bool, k: Node)
    requires WellFormed(exps)
    ensures |Contributed(exps, truthy, k)| <= |Contributing(exps)|
  {
    if |exps| > 0 {
      WellFormedTail(exps);
      ContributedFits(exps[1..], truthy, k);
      if exps[0].result.Some? {
        MediansForDistinct(FlaggedEntries(exps[0], truthy), k);
      }
    }
  }

  // ---------------------------------------------------------------- accumulation

  /** The `entries` defaultdict: keys in first-insertion order and their value lists. */
  datatype Acc<V> = Acc(order: seq<Node>, values: map<Node, seq<V>>)

  ghost predicate AccOk<V>(acc: Acc<V>) {
    && (forall i, j :: 0 <= i < j < |acc.order| ==> acc.order[i] != acc.order[j])
    && (forall k :: k in acc.values <==> k in acc.order)
    && (forall k :: k in acc.values ==> acc.values[k] != [])
  }

  function Get<V>(acc: Acc<V>, k: Node): seq<V> {
    if k in acc.values then acc.values[k] else []
  }

  /** `entries[node].append(value)`. */
  function Record<V>(acc: Acc<V>, k: Node, v: V): (r: Acc<V>)
    ensures AccOk(acc) ==> AccOk(r)
    ensures forall n :: Get(r, n) == if n == k then Get(acc, n) + [v] else Get(acc, n)
  {
    if k in acc.values then Acc(acc.order, acc.values[k := acc.values[k] + [v]])
    else Acc(acc.order + [k], acc.values[k := [v]])
  }

  lemma ConcatAssoc<T>(a: seq<T>, b: seq<T>, c: seq<T>)
    ensures a + b + c == a + (b + c)
  {
  }

  /** The inner loop: one experiment's entries, in the given order. */
  function RecordAll<V>(acc: Acc<V>, s: seq<Scored<V>>): (r: Acc<V>)
    requires Wide(s)
    ensures AccOk(acc) ==> AccOk(r)
    decreases |s|
  {
    if |s| == 0 then acc
    else RecordAll(Record(acc, s[0].node, s[0].scores[MedianIndex]), s[1..])
  }

  /** After the inner loop a node holds what it held, then its medians in visiting order. */
  lemma {:induction false} RecordAllGet<V>(acc: Acc<V>, s: seq<Scored<V>>, n: Node)
    requires Wide(s)
    ensures Get(RecordAll(acc, s), n) == Get(acc, n) + MediansFor(s, n)
    decreases |s|
  {
    if |s| > 0 {
      var v := s[0].scores[MedianIndex];
      var next := Record(acc, s[0].node, v);
      RecordAllGet(next, s[1..], n);
      var rest := MediansFor(s[1..], n);
      if s[0].node == n {
        assert Get(next, n) == Get(acc, n) + [v];
        assert MediansFor(s, n) == [v] + rest;
        ConcatAssoc(Get(acc, n), [v], rest);
      } else {
        assert Get(next, n) == Get(acc, n);
        assert MediansFor(s, n) == [] + rest;
      }
    }
  }

  lemma SortedMedians<V(!new)>(e: Experiment<V>, truthy: V -> bool, n: Node)
    requires e.result.Some? && Wide(e.result.value) && DistinctNodes(e.result.value)
    ensures MediansFor(SortedData(e, truthy), n) == MediansFor(FlaggedEntries(e, truthy), n)
  {
    MediansForPermutation(FlaggedEntries(e, truthy), SortedData(e, truthy), n);
  }

  /** The outer loop: experiments without a result are skipped. */
  function Accumulate<V(!new)>(acc: Acc<V>, exps: seq<Experiment<V>>, truthy: V -> bool): (r: Acc<V>)
    requires WellFormed(exps)
    ensures AccOk(acc) ==> AccOk(r)
    decreases |exps|
  {
    if |exps| == 0 then acc
    else
      WellFormedTail(exps);
      if exps[0].result.Some? then Accumulate(RecordAll(acc, SortedData(exps[0], truthy)), exps[1..], truthy)
      else Accumulate(acc, exps[1..], truthy)
  }

  /** Every node ends up with the reference contributions, whatever order each experiment's
      entries were visited in. */
  lemma {:induction false} AccumulateGet<V(!new)>(acc: Acc<V>, exps: seq<Experiment<V>>, truthy: V -> bool, n: Node)
    requires WellFormed(exps)
    ensures Get(Accumulate(acc, exps, truthy), n) == Get(acc, n) + Contributed(exps, truthy, n)
    decreases |exps|
  {
    if |exps| > 0 {
      WellFormedTail(exps);
      if exps[0].result.Some? {
        var next := RecordAll(acc, SortedData(exps[0], truthy));
        AccumulateGet(next, exps[1..], truthy, n);
        AccumulateHead(acc, exps, truthy, n);
      } else {
        AccumulateGet(acc, exps[1..], truthy, n);
        AccumulateSkip(acc, exps, truthy, n);
      }
    }
  }

  /** An experiment without a result adds nothing. */
  lemma AccumulateSkip<V(!new)>(acc: Acc<V>, exps: seq<Experiment<V>>, truthy: V -> bool, n: Node)
    requires WellFormed(exps) && 0 < |exps| && exps[0].result.None?
    requires WellFormed(exps[1..])
    requires Get(Accumulate(acc, exps[1..], truthy), n) == Get(acc, n) + Contributed(exps[1..], truthy, n)
    ensures Get(Accumulate(acc, exps, truthy), n) == Get(acc, n) + Contributed(exps, truthy, n)
  {
    AccumulateNoResult(acc, exps, truthy);
    ContributedNoResult(exps, truthy, n);
  }

  lemma AccumulateNoResult<V(!new)>(acc: Acc<V>, exps: seq<Experiment<V>>, truthy: V -> bool)
    requires WellFormed(exps) && 0 < |exps| && exps[0].result.None?
    requires WellFormed(exps[1..])
    ensures Accumulate(acc, exps, truthy) == Accumulate(acc, exps[1..], truthy)
  {
  }

  lemma ContributedNoResult<V>(exps: seq<Experiment<V>>, truthy: V -> bool, n: Node)
    requires WellFormed(exps) && 0 < |exps| && exps[0].result.None?
    requires WellFormed(exps[1..])
    ensures Contributed(exps, truthy, n) == Contributed(exps[1..], truthy, n)
  {
    assert [] + Contributed(exps[1..], truthy, n) == Contributed(exps[1..], truthy, n);
  }

  /** One experiment with a result: its sorted entries add exactly its reference medians. */
  lemma AccumulateHead<V(!new)>(acc: Acc<V>, exps: seq<Experiment<V>>, truthy: V -> bool, n: Node)
    requires WellFormed(exps) && 0 < |exps| && exps[0].result.Some?
    requires WellFormed(exps[1..])
    requires var next := RecordAll(acc, SortedData(exps[0], truthy));
      Get(Accumulate(next, exps[1..], truthy), n) == Get(next, n) + Contributed(exps[1..], truthy, n)
    ensures Get(Accumulate(acc, exps, truthy), n) == Get(acc, n) + Contributed(exps, truthy, n)
  {
    var sorted := SortedData(exps[0], truthy);
    var next := RecordAll(acc, sorted);
    RecordAllGet(acc, sorted, n);
    SortedMedians(exps[0], truthy, n);
    assert Accumulate(acc, exps, truthy) == Accumulate(next, exps[1..], truthy);
    var mine := MediansFor(FlaggedEntries(exps[0], truthy), n);
    var tail := Contributed(exps[1..], truthy, n);
    assert Get(next, n) == Get(acc, n) + mine;
    assert Contributed(exps, truthy, n) == mine + tail;
    ConcatAssoc(Get(acc, n), mine, tail);
  }

  // ---------------------------------------------------------------- the table

  const BaseHeader: seq<string> := ["Type", "Namespace", "Name"]

  /** Every experiment in `c` has a source name to put in its column label. */
  predicate Named<V>(c: seq<Experiment<V>>) {
    forall i :: 0 <= i < |c| ==> c[i].omic.sourceName.Some?
  }

  /** An experiment's column label, `[<id>] <pretty source name>`. */
  function ColumnLabel<V>(e: Experiment<V>): string
    requires e.omic.sourceName.Some?
  {
    "[" + Text.NatToString(e.id) + "] " + Experiments.SourceName(e).value
  }

  /** Experiments with different ids get different column labels. */
  lemma ColumnLabelInjective(a: nat, b: nat, na: string, nb: string)
    requires "[" + Text.NatToString(a) + "] " + na == "[" + Text.NatToString(b) + "] " + nb
    ensures a == b
  {
    var sa := Text.NatToString(a);
    var sb := Text.NatToString(b);
    var la := "[" + sa + "] " + na;
    var lb := "[" + sb + "] " + nb;
    assert la[1 + |sa|] == ']' && lb[1 + |sb|] == ']';
    assert |sa| == |sb|;
    assert sa == la[1..1 + |sa|] == lb[1..1 + |sb|] == sb;
    Text.DigitsValueOfNatToString(a);
    Text.DigitsValueOfNatToString(b);
  }

  /** The table header: the key columns, then one label per experiment with a result. */
  function Header<V>(exps: seq<Experiment<V>>): (h: seq<string>)
    requires Named(Contributing(exps))
    ensures |h| == |BaseHeader| + |Contributing(exps)|
    ensures h[..|BaseHeader|] == BaseHeader
    ensures forall i :: 0 <= i < |Contributing(exps)| ==> h[|BaseHeader| + i] == ColumnLabel(Contributing(exps)[i])
  {
    var c := Contributing(exps);
    var labels := seq(|c|, i requires 0 <= i < |c| => ColumnLabel(c[i]));
    var h := BaseHeader + labels;
    assert h[..|BaseHeader|] == BaseHeader;
    assert forall i :: 0 <= i < |c| ==> h[|BaseHeader| + i] == labels[i];
    h
  }

  /** `vs` filled up with `fill` to `width` values (`fillna` on a short row). */
  function Pad<V>(vs: seq<V>, width: nat, fill: V): (r: seq<V>)
    requires |vs| <= width
    ensures |r| == width && r[..|vs|] == vs
    ensures forall i :: |vs| <= i < width ==> r[i] == fill
  {
    vs + seq(width - |vs|, _ => fill)
  }

  datatype Row<V> = Row(node: Node, values: seq<V>)
  datatype Table<V> = Table(header: seq<string>, rows: seq<Row<V>>)

  function EmptyAcc<V>(): (acc: Acc<V>)
    ensures AccOk(acc) && forall n :: Get(acc, n) == []
  {
    Acc([], map[])
  }

  /** The accumulated dictionary holds exactly the reference contributions. */
  lemma AccumulatedFromEmpty<V(!new)>(exps: seq<Experiment<V>>, truthy: V -> bool)
    requires WellFormed(exps)
    ensures AccOk(Accumulate(EmptyAcc(), exps, truthy))
    ensures forall k :: Get(Accumulate(EmptyAcc(), exps, truthy), k) == Contributed(exps, truthy, k)
  {
    var empty: Acc<V> := EmptyAcc();
    assert AccOk(empty) && forall k :: Get(empty, k) == [];
    forall k ensures Get(Accumulate(empty, exps, truthy), k) == Contributed(exps, truthy, k) {
      AccumulateGet(empty, exps, truthy, k);
      assert [] + Contributed(exps, truthy, k) == Contributed(exps, truthy, k);
    }
  }

  /** The dictionary's keys in insertion order: every flagged node, once. */
  function NodeOrder<V(!new)>(exps: seq<Experiment<V>>, truthy: V -> bool): (ks: seq<Node>)
    requires WellFormed(exps)
    ensures forall i, j :: 0 <= i < j < |ks| ==> ks[i] != ks[j]
    ensures forall k :: k in ks <==> Contributed(exps, truthy, k) != []
  {
    var acc := Accumulate(EmptyAcc(), exps, truthy);
    AccumulatedFromEmpty(exps, truthy);
    assert forall k :: k in acc.order <==> Contributed(exps, truthy, k) != [] by {
      forall k ensures k in acc.order <==> Contributed(exps, truthy, k) != [] {
        assert Get(acc, k) == Contributed(exps, truthy, k);
      }
    }
    acc.order
  }

  /** The rows `DataFrame(result, columns=x_label)` builds from the list of rows, one per
      dictionary key in insertion order, each short row filled to the full width by `fillna`.
      Valid only where the longest list already has the full width (see `ComparisonTable`). */
  function Rows<V>(acc: Acc<V>, width: nat, fill: V): (rows: seq<Row<V>>)
    requires AccOk(acc)
    requires forall k :: k in acc.values ==> |acc.values[k]| <= width
    ensures |rows| == |acc.order|
    ensures forall i :: 0 <= i < |rows| ==> rows[i].node == acc.order[i]
    ensures forall i :: 0 <= i < |rows| ==>
      |Get(acc, rows[i].node)| <= width && rows[i].values == Pad(Get(acc, rows[i].node), width, fill)
  {
    seq(|acc.order|, i requires 0 <= i < |acc.order| =>
      Row(acc.order[i], Pad(acc.values[acc.order[i]], width, fill)))
  }

  /** Why building the table raises: an experiment's label needs the suffix of a null source
      name, or the widest row is narrower than the header, which the DataFrame constructor
      rejects as a column-count mismatch. */
  datatype TableError = NoSourceName | ColumnCountMismatch

  /** Some key's list has the full width. */
  predicate SomeFull<V>(acc: Acc<V>, width: nat) {
    exists i :: 0 <= i < |acc.order| && |Get(acc, acc.order[i])| == width
  }

  /** An empty accumulated dictionary means no node receives anything. */
  lemma NoKeysNoContributions<V(!new)>(exps: seq<Experiment<V>>, truthy: V -> bool, acc: Acc<V>)
    requires WellFormed(exps) && AccOk(acc) && |acc.order| == 0
    requires forall n :: Get(acc, n) == Contributed(exps, truthy, n)
    ensures forall k :: Contributed(exps, truthy, k) == []
  {
    forall k ensures Contributed(exps, truthy, k) == [] {
      assert Get(acc, k) == Contributed(exps, truthy, k);
    }
  }

  /** A full-width list belongs to a node that receives a value from every column. */
  lemma FullKeyFullNode<V(!new)>(exps: seq<Experiment<V>>, truthy: V -> bool, acc: Acc<V>)
    requires WellFormed(exps) && AccOk(acc) && SomeFull(acc, |Contributing(exps)|)
    requires forall n :: Get(acc, n) == Contributed(exps, truthy, n)
    ensures exists k :: |Contributed(exps, truthy, k)| == |Contributing(exps)|
  {
    var i :| 0 <= i < |acc.order| && |Get(acc, acc.order[i])| == |Contributing(exps)|;
    assert Get(acc, acc.order[i]) == Contributed(exps, truthy, acc.order[i]);
  }

  /** A non-empty dictionary without a full-width list: some node receives something, and
      every node receives fewer values than there are columns. */
  lemma NarrowKeys<V(!new)>(exps: seq<Experiment<V>>, truthy: V -> bool, acc: Acc<V>)
    requires WellFormed(exps) && AccOk(acc) && |acc.order| > 0 && !SomeFull(acc, |Contributing(exps)|)
    requires forall n :: Get(acc, n) == Contributed(exps, truthy, n)
    ensures exists k :: Contributed(exps, truthy, k) != []
    ensures forall k :: |Contributed(exps, truthy, k)| < |Contributing(exps)|
  {
    var k0 := acc.order[0];
    assert Get(acc, k0) == Contributed(exps, truthy, k0);
    ContributedFits(exps, truthy, k0);
    forall k ensures |Contributed(exps, truthy, k)| < |Contributing(exps)| {
      NarrowAt(exps, truthy, acc, k);
    }
  }

  /** With no full-width list and a non-empty column set, each node's list is narrower. */
  lemma NarrowAt<V(!new)>(exps: seq<Experiment<V>>, truthy: V -> bool, acc: Acc<V>, k: Node)
    requires WellFormed(exps) && AccOk(acc)
    requires forall n :: Get(acc, n) == Contributed(exps, truthy, n)
    requires 0 < |Contributing(exps)| && !SomeFull(acc, |Contributing(exps)|)
    ensures |Contributed(exps, truthy, k)| < |Contributing(exps)|
  {
    ContributedFits(exps, truthy, k);
    if Contributed(exps, truthy, k) != [] {
      assert Get(acc, k) == Contributed(exps, truthy, k);
      assert k in acc.order;
      var i :| 0 <= i < |acc.order| && acc.order[i] == k;
      assert |Get(acc, acc.order[i])| != |Contributing(exps)|;
    }
  }

  /** The table the DataFrame holds once it builds: one row per flagged node in insertion
      order, its contributions in experiment order, padded at the end. */
  function PaddedTable<V(!new)>(exps: seq<Experiment<V>>, truthy: V -> bool, fill: V): (t: Table<V>)
    requires WellFormed(exps) && Named(Contributing(exps))
    ensures t.header == Header(exps)
    ensures |t.rows| == |NodeOrder(exps, truthy)|
    ensures forall i :: 0 <= i < |t.rows| ==> t.rows[i].node == NodeOrder(exps, truthy)[i]
    ensures forall i, j :: 0 <= i < j < |t.rows| ==> t.rows[i].node != t.rows[j].node
    ensures forall k :: (exists i :: 0 <= i < |t.rows| && t.rows[i].node == k) <==> Contributed(exps, truthy, k) != []
    ensures forall i :: 0 <= i < |t.rows| ==>
      |Contributed(exps, truthy, t.rows[i].node)| <= |Contributing(exps)| &&
      t.rows[i].values == Pad(Contributed(exps, truthy, t.rows[i].node), |Contributing(exps)|, fill)
  {
    var acc := Accumulate(EmptyAcc(), exps, truthy);
    AccumulatedFromEmpty(exps, truthy);
    AccumulatedFits(exps, truthy);
    var rows := Rows(acc, |Contributing(exps)|, fill);
    assert NodeOrder(exps, truthy) == acc.order;
    Table(Header(exps), rows)
  }

  /** No list in the accumulated dictionary is wider than the number of contributing
      experiments. */
  lemma AccumulatedFits<V(!new)>(exps: seq<Experiment<V>>, truthy: V -> bool)
    requires WellFormed(exps)
    ensures forall k :: k in Accumulate(EmptyAcc(), exps, truthy).values ==>
      |Accumulate(EmptyAcc(), exps, truthy).values[k]| <= |Contributing(exps)|
  {
    var acc := Accumulate(EmptyAcc(), exps, truthy);
    AccumulatedFromEmpty(exps, truthy);
    forall k | k in acc.values ensures |acc.values[k]| <= |Contributing(exps)| {
      ContributedFits(exps, truthy, k);
      assert Get(acc, k) == acc.values[k];
    }
  }

  /** The comparison table as the source builds it: one row per node flagged by any
      experiment, carrying that node's contributions in experiment order, padded at the end.
      It fails when an experiment with a result has no source name, and when some node has a
      row but none receives a value from every such experiment. */
  function ComparisonTable<V(!new)>(exps: seq<Experiment<V>>, truthy: V -> bool, fill: V): (t: Result<Table<V>, TableError>)
    requires WellFormed(exps)
    ensures t == Failure(NoSourceName) <==> !Named(Contributing(exps))
    ensures t == Failure(ColumnCountMismatch) <==>
      && Named(Contributing(exps))
      && (exists k :: Contributed(exps, truthy, k) != [])
      && forall k :: |Contributed(exps, truthy, k)| < |Contributing(exps)|
    ensures t.Success? ==> Named(Contributing(exps)) && t.value.header == Header(exps)
    ensures t.Success? ==> forall i, j :: 0 <= i < j < |t.value.rows| ==> t.value.rows[i].node != t.value.rows[j].node
    ensures t.Success? ==> forall k ::
      (exists i :: 0 <= i < |t.value.rows| && t.value.rows[i].node == k) <==> Contributed(exps, truthy, k) != []
    ensures t.Success? ==> |t.value.rows| == |NodeOrder(exps, truthy)|
    ensures t.Success? ==> forall i :: 0 <= i < |t.value.rows| ==> t.value.rows[i].node == NodeOrder(exps, truthy)[i]
    ensures t.Success? ==> forall i :: 0 <= i < |t.value.rows| ==>
      |Contributed(exps, truthy, t.value.rows[i].node)| <= |Contributing(exps)| &&
      t.value.rows[i].values == Pad(Contributed(exps, truthy, t.value.rows[i].node), |Contributing(exps)|, fill)
  {
    var c := Contributing(exps);
    if !Named(c) then Failure(NoSourceName)
    else
      var acc := Accumulate(EmptyAcc(), exps, truthy);
      AccumulatedFromEmpty(exps, truthy);
      if |acc.order| > 0 && !SomeFull(acc, |c|) then
        NarrowKeys(exps, truthy, acc);
        Failure(ColumnCountMismatch)
      else
        assert (forall k :: Contributed(exps, truthy, k) == []) ||
          exists k :: |Contributed(exps, truthy, k)| == |c| by {
          if |acc.order| == 0 {
            NoKeysNoContributions(exps, truthy, acc);
          } else {
            FullKeyFullNode(exps, truthy, acc);
          }
        }
        Success(PaddedTable(exps, truthy, fill))
  }

  /** When the table builds, a node that receives anything has a row holding exactly its
      padded contributions. */
  lemma TableRowFor<V(!new)>(exps: seq<Experiment<V>>, truthy: V -> bool, fill: V, k: Node)
    requires WellFormed(exps) && Contributed(exps, truthy, k) != []
    requires ComparisonTable(exps, truthy, fill).Success?
    ensures |Contributed(exps, truthy, k)| <= |Contributing(exps)|
    ensures exists i ::
      && 0 <= i < |ComparisonTable(exps, truthy, fill).value.rows|
      && ComparisonTable(exps, truthy, fill).value.rows[i] == Row(k, Pad(Contributed(exps, truthy, k), |Contributing(exps)|, fill))
  {
    ContributedFits(exps, truthy, k);
    var t := ComparisonTable(exps, truthy, fill).value;
    var i :| 0 <= i < |t.rows| && t.rows[i].node == k;
    assert t.rows[i] == Row(k, Pad(Contributed(exps, truthy, k), |Contributing(exps)|, fill));
  }

  /** When some node receives a value from every labelled experiment and every data set is
      named, the table builds, and each flagged node's row is its padded contributions. */
  lemma FullNodeBuilds<V(!new)>(exps: seq<Experiment<V>>, truthy: V -> bool, fill: V, full: Node, k: Node)
    requires WellFormed(exps) && Named(Contributing(exps))
    requires |Contributed(exps, truthy, full)| == |Contributing(exps)|
    requires Contributed(exps, truthy, k) != []
    ensures ComparisonTable(exps, truthy, fill).Success?
    ensures exists i ::
      && 0 <= i < |ComparisonTable(exps, truthy, fill).value.rows|
      && ComparisonTable(exps, truthy, fill).value.rows[i] == Row(k, Pad(Contributed(exps, truthy, k), |Contributing(exps)|, fill))
  {
    var t := ComparisonTable(exps, truthy, fill);
    assert t != Failure(NoSourceName) && t != Failure(ColumnCountMismatch);
    TableRowFor(exps, truthy, fill, k);
  }

  /** One value filled to two columns. */
  lemma PadSingle<V>(v: V, fill: V)
    ensures Pad([v], 2, fill) == [v, fill]
  {
    var p := Pad([v], 2, fill);
    assert p[0] == p[..1][0];
  }

  /** In a two-column table that builds, a node with the single value `v` gets the row
      `[v, fill]`, whatever experiment `v` came from. */
  lemma SingleValueRow<V(!new)>(exps: seq<Experiment<V>>, truthy: V -> bool, fill: V, full: Node, k: Node, v: V)
    requires WellFormed(exps) && Named(Contributing(exps)) && |Contributing(exps)| == 2
    requires |Contributed(exps, truthy, full)| == 2 && Contributed(exps, truthy, k) == [v]
    ensures ComparisonTable(exps, truthy, fill).Success?
    ensures exists i ::
      && 0 <= i < |ComparisonTable(exps, truthy, fill).value.rows|
      && ComparisonTable(exps, truthy, fill).value.rows[i] == Row(k, [v, fill])
  {
    PadSingle(v, fill);
    FullNodeBuilds(exps, truthy, fill, full, k);
  }

  // ---------------------------------------------------------------- column alignment

  /** Two gene nodes for the witnesses below. */
  const NodeA: Node := Experiments.Node("Gene", "HGNC", "A")
  const NodeB: Node := Experiments.Node("Gene", "HGNC", "B")

  predicate NonZero(x: int) { x != 0 }

  /** The witness input: both data sets are named, experiment 1 flags node A with median 5,
      and experiment 2 flags node A with 6 and node B with 7. */
  predicate WitnessInput(e1: Experiment<int>, e2: Experiment<int>) {
    && e1.omic.sourceName.Some? && e2.omic.sourceName.Some?
    && e1.result == Some([Experiments.Scored(NodeA, [1, 0, 0, 5])])
    && e2.result == Some([Experiments.Scored(NodeA, [1, 0, 0, 6]), Experiments.Scored(NodeB, [1, 0, 0, 7])])
  }

  /** What the witness contributes: both experiments get a column, every entry is flagged,
      node A receives 5 and 6, and node B receives the single value 7. */
  lemma WitnessSetup(e1: Experiment<int>, e2: Experiment<int>)
    requires WitnessInput(e1, e2)
    ensures WellFormed([e1, e2])
    ensures Contributing([e1, e2]) == [e1, e2] && Named([e1, e2])
    ensures FlaggedEntries(e1, NonZero) == e1.result.value
    ensures FlaggedEntries(e2, NonZero) == e2.result.value
    ensures Contributed([e1, e2], NonZero, NodeA) == [5, 6]
    ensures Contributed([e1, e2], NonZero, NodeB) == [7]
    ensures Header([e1, e2]) == BaseHeader + [ColumnLabel(e1), ColumnLabel(e2)]
  {
    WitnessBasics(e1, e2);
    WitnessMedians(e2);
    var exps := [e1, e2];
    assert exps[1..] == [e2] && exps[1..][1..] == [];
    assert MediansFor(e1.result.value, NodeA) == [5];
    assert MediansFor(e1.result.value, NodeB) == [];
    assert Contributed(exps[1..], NonZero, NodeA) == [6] + [];
    assert Contributed(exps[1..], NonZero, NodeB) == [7] + [];
    TwoColumnHeader(e1, e2);
  }

  /** The witness is well formed, both experiments have a named result, and every entry is
      flagged. */
  lemma WitnessBasics(e1: Experiment<int>, e2: Experiment<int>)
    requires WitnessInput(e1, e2)
    ensures WellFormed([e1, e2])
    ensures Contributing([e1, e2]) == [e1, e2] && Named([e1, e2])
    ensures FlaggedEntries(e1, NonZero) == e1.result.value
    ensures FlaggedEntries(e2, NonZero) == e2.result.value
  {
    var exps := [e1, e2];
    assert NodeA != NodeB by { assert NodeA.name[0] != NodeB.name[0]; }
    assert DistinctNodes(e2.result.value);
    assert WellFormed(exps);
    assert exps[1..] == [e2] && exps[1..][1..] == [];
    assert Contributing(exps) == [e1, e2];
    assert FlaggedEntries(e1, NonZero) == e1.result.value;
    FlaggedPair(e2);
  }

  /** Experiment 2 of the witness records 6 for node A and 7 for node B. */
  lemma WitnessMedians(e2: Experiment<int>)
    requires e2.result == Some([Experiments.Scored(NodeA, [1, 0, 0, 6]), Experiments.Scored(NodeB, [1, 0, 0, 7])])
    ensures Wide(e2.result.value)
    ensures MediansFor(e2.result.value, NodeA) == [6]
    ensures MediansFor(e2.result.value, NodeB) == [7]
  {
    var s2 := e2.result.value;
    assert NodeA != NodeB by { assert NodeA.name[0] != NodeB.name[0]; }
    assert s2[1..] == [s2[1]] && s2[1..][1..] == [];
    assert MediansFor(s2[1..], NodeA) == [];
    assert MediansFor(s2[1..], NodeB) == [7];
  }

  /** Two named experiments with results give the key columns and their two labels. */
  lemma TwoColumnHeader<V>(e1: Experiment<V>, e2: Experiment<V>)
    requires Contributing([e1, e2]) == [e1, e2]
    requires e1.omic.sourceName.Some? && e2.omic.sourceName.Some?
    ensures Named([e1, e2])
    ensures Header([e1, e2]) == BaseHeader + [ColumnLabel(e1), ColumnLabel(e2)]
  {
    assert Named([e1, e2]);
    var h := Header([e1, e2]);
    assert h == h[..|BaseHeader|] + h[|BaseHeader|..];
    assert h[|BaseHeader|..] == [ColumnLabel(e1), ColumnLabel(e2)];
  }

  /** Experiment 2 of the witness keeps both its entries when filtered. */
  lemma FlaggedPair(e2: Experiment<int>)
    requires e2.result == Some([Experiments.Scored(NodeA, [1, 0, 0, 6]), Experiments.Scored(NodeB, [1, 0, 0, 7])])
    ensures Wide(e2.result.value) && FlaggedEntries(e2, NonZero) == e2.result.value
  {
    var s := e2.result.value;
    Experiments.DataListSingleton(s[0], NonZero);
    Experiments.DataListSingleton(s[1], NonZero);
    Experiments.DataListConcat([s[0]], [s[1]], NonZero);
    assert [s[0]] + [s[1]] == s;
  }

  /** On the witness the table builds, and node B's single value 7 lands in experiment 1's
      column while experiment 2's column holds the fill value: a row's values are packed from
      the left. */
  lemma MisalignedColumn(e1: Experiment<int>, e2: Experiment<int>)
    requires WitnessInput(e1, e2)
    ensures Header([e1, e2]) == BaseHeader + [ColumnLabel(e1), ColumnLabel(e2)]
    ensures ComparisonTable([e1, e2], NonZero, 0).Success?
    ensures exists i ::
      && 0 <= i < |ComparisonTable([e1, e2], NonZero, 0).value.rows|
      && ComparisonTable([e1, e2], NonZero, 0).value.rows[i] == Row(NodeB, [7, 0])
  {
    WitnessSetup(e1, e2);
    SingleValueRow([e1, e2], NonZero, 0, NodeA, NodeB, 7);
  }

  /** The median `s` records for `k`, if it records one. */
  function MedianIn<V>(s: seq<Scored<V>>, k: Node): (r: Option<V>)
    requires Wide(s)
    ensures r.None? <==> forall i :: 0 <= i < |s| ==> s[i].node != k
    ensures DistinctNodes(s) ==> forall i :: 0 <= i < |s| && s[i].node == k ==> r == Some(s[i].scores[MedianIndex])
  {
    if |s| == 0 then None
    else if s[0].node == k then
      assert DistinctNodes(s) ==> forall i :: 1 <= i < |s| ==> s[i].node != k;
      Some(s[0].scores[MedianIndex])
    else
      assert forall i :: 1 <= i < |s| ==> s[i] == s[1..][i - 1];
      MedianIn(s[1..], k)
  }

  /** One cell of the aligned table: the experiment's own median for the node, or `fill`. */
  function Cell<V>(e: Experiment<V>, truthy: V -> bool, k: Node, fill: V): V
    requires e.result.Some? && Wide(e.result.value)
  {
    MedianIn(FlaggedEntries(e, truthy), k).GetOr(fill)
  }

  /** The cells of one aligned row: column `j` holds experiment `j`'s median for `k`. */
  function AlignedRow<V>(c: seq<Experiment<V>>, truthy: V -> bool, k: Node, fill: V): (vs: seq<V>)
    requires WellFormed(c) && forall j :: 0 <= j < |c| ==> c[j].result.Some?
    ensures |vs| == |c|
    ensures forall j, p ::
      (0 <= j < |c| && 0 <= p < |FlaggedEntries(c[j], truthy)| && FlaggedEntries(c[j], truthy)[p].node == k) ==>
      vs[j] == FlaggedEntries(c[j], truthy)[p].scores[MedianIndex]
    ensures forall j ::
      (0 <= j < |c| && forall p :: 0 <= p < |FlaggedEntries(c[j], truthy)| ==> FlaggedEntries(c[j], truthy)[p].node != k) ==>
      vs[j] == fill
  {
    seq(|c|, j requires 0 <= j < |c| => Cell(c[j], truthy, k, fill))
  }

  /** One row per key, in key order, holding `f` of the key. */
  function Tabulate<V>(ks: seq<Node>, f: Node -> seq<V>): (rows: seq<Row<V>>)
    ensures |rows| == |ks|
    ensures forall i :: 0 <= i < |rows| ==> rows[i] == Row(ks[i], f(ks[i]))
    ensures forall k :: (exists i :: 0 <= i < |rows| && rows[i].node == k) <==> k in ks
  {
    var rows := seq(|ks|, i requires 0 <= i < |ks| => Row(ks[i], f(ks[i])));
    assert forall k :: (exists i :: 0 <= i < |rows| && rows[i].node == k) <==> k in ks by {
      forall k ensures (exists i :: 0 <= i < |rows| && rows[i].node == k) <==> k in ks {
        if k in ks {
          var i :| 0 <= i < |ks| && ks[i] == k;
          assert rows[i].node == k;
        }
      }
    }
    rows
  }

  /** The aligned rows: one per flagged node in the dictionary's order, cell `j` holding
      what experiment `j` recorded for the node and `fill` when it did not flag it. */
  function AlignedRows<V(!new)>(exps: seq<Experiment<V>>, truthy: V -> bool, fill: V): (rows: seq<Row<V>>)
    requires WellFormed(exps)
    ensures |rows| == |NodeOrder(exps, truthy)|
    ensures forall i :: 0 <= i < |rows| ==>
      && rows[i].node == NodeOrder(exps, truthy)[i]
      && rows[i].values == AlignedRow(Contributing(exps), truthy, rows[i].node, fill)
    ensures forall i, j :: 0 <= i < j < |rows| ==> rows[i].node != rows[j].node
    ensures forall k :: (exists i :: 0 <= i < |rows| && rows[i].node == k) <==> Contributed(exps, truthy, k) != []
  {
    var c := Contributing(exps);
    Tabulate(NodeOrder(exps, truthy), (k: Node) => AlignedRow(c, truthy, k, fill))
  }

  /** The table with every value in its own experiment's column: one row per flagged node,
      in the order the source lists them, where cell `j` holds what experiment `j` recorded
      for the node and `fill` when that experiment did not flag it. Only a missing source
      name makes it fail; whenever the source's table builds, this one has the same rows. */
  function AlignedTable<V(!new)>(exps: seq<Experiment<V>>, truthy: V -> bool, fill: V): (t: Result<Table<V>, TableError>)
    requires WellFormed(exps)
    ensures t == Failure(NoSourceName) <==> !Named(Contributing(exps))
    ensures t.Failure? ==> t.error == NoSourceName
    ensures t.Success? ==> Named(Contributing(exps)) && t.value.header == Header(exps)
    ensures t.Success? ==> forall i, j :: 0 <= i < j < |t.value.rows| ==> t.value.rows[i].node != t.value.rows[j].node
    ensures t.Success? ==> forall k ::
      (exists i :: 0 <= i < |t.value.rows| && t.value.rows[i].node == k) <==> Contributed(exps, truthy, k) != []
    ensures t.Success? ==> forall i :: 0 <= i < |t.value.rows| ==>
      t.value.rows[i].values == AlignedRow(Contributing(exps), truthy, t.value.rows[i].node, fill)
    ensures ComparisonTable(exps, truthy, fill).Success? ==>
      && t.Success?
      && |t.value.rows| == |ComparisonTable(exps, truthy, fill).value.rows|
      && forall i :: 0 <= i < |t.value.rows| ==> t.value.rows[i].node == ComparisonTable(exps, truthy, fill).value.rows[i].node
  {
    if !Named(Contributing(exps)) then Failure(NoSourceName)
    else
      Success(Table(Header(exps), AlignedRows(exps, truthy, fill)))
  }

  /** With every data set named, each flagged node has an aligned row. */
  lemma AlignedRowFor<V(!new)>(exps: seq<Experiment<V>>, truthy: V -> bool, fill: V, k: Node)
    requires WellFormed(exps) && Named(Contributing(exps))
    requires Contributed(exps, truthy, k) != []
    ensures AlignedTable(exps, truthy, fill).Success?
    ensures exists i ::
      && 0 <= i < |AlignedTable(exps, truthy, fill).value.rows|
      && AlignedTable(exps, truthy, fill).value.rows[i] == Row(k, AlignedRow(Contributing(exps), truthy, k, fill))
  {
    var t := AlignedTable(exps, truthy, fill).value;
    var i :| 0 <= i < |t.rows| && t.rows[i].node == k;
    assert t.rows[i] == Row(k, AlignedRow(Contributing(exps), truthy, k, fill));
  }

  /** On the witness the aligned table puts node B's 7 under experiment 2's label. */
  lemma AlignedColumn(e1: Experiment<int>, e2: Experiment<int>)
    requires WitnessInput(e1, e2)
    ensures Header([e1, e2]) == BaseHeader + [ColumnLabel(e1), ColumnLabel(e2)]
    ensures AlignedTable([e1, e2], NonZero, 0).Success?
    ensures exists i ::
      && 0 <= i < |AlignedTable([e1, e2], NonZero, 0).value.rows|
      && AlignedTable([e1, e2], NonZero, 0).value.rows[i] == Row(NodeB, [0, 7])
  {
    WitnessSetup(e1, e2);
    WitnessAlignedRow(e1, e2);
    AlignedRowIs([e1, e2], NonZero, 0, NodeB, [0, 7]);
  }

  /** When every data set is named, a flagged node whose aligned row is `vs` has the row
      `Row(k, vs)` in the corrected table. */
  lemma AlignedRowIs<V(!new)>(exps: seq<Experiment<V>>, truthy: V -> bool, fill: V, k: Node, vs: seq<V>)
    requires WellFormed(exps) && Named(Contributing(exps))
    requires Contributed(exps, truthy, k) != []
    requires AlignedRow(Contributing(exps), truthy, k, fill) == vs
    ensures AlignedTable(exps, truthy, fill).Success?
    ensures exists i ::
      && 0 <= i < |AlignedTable(exps, truthy, fill).value.rows|
      && AlignedTable(exps, truthy, fill).value.rows[i] == Row(k, vs)
  {
    AlignedRowFor(exps, truthy, fill, k);
  }

  /** On the witness, node B's aligned row is `[0, 7]`. */
  lemma WitnessAlignedRow(e1: Experiment<int>, e2: Experiment<int>)
    requires WitnessInput(e1, e2)
    ensures WellFormed([e1, e2])
    ensures AlignedRow([e1, e2], NonZero, NodeB, 0) == [0, 7]
  {
    var exps := [e1, e2];
    WitnessSetup(e1, e2);
    var vs := AlignedRow(exps, NonZero, NodeB, 0);
    assert FlaggedEntries(exps[1], NonZero)[1].node == NodeB;
    assert FlaggedEntries(exps[0], NonZero)[0].node != NodeB;
  }

  /** A second input: both data sets are named, experiment 1 flags only node A with 5 and
      experiment 2 flags only node B with 7. */
  predicate DisjointInput(e1: Experiment<int>, e2: Experiment<int>) {
    && e1.omic.sourceName.Some? && e2.omic.sourceName.Some?
    && e1.result == Some([Experiments.Scored(NodeA, [1, 0, 0, 5])])
    && e2.result == Some([Experiments.Scored(NodeB, [1, 0, 0, 7])])
  }

  /** On the disjoint input each experiment gets a column but no node receives two values. */
  lemma DisjointSetup(e1: Experiment<int>, e2: Experiment<int>)
    requires DisjointInput(e1, e2)
    ensures WellFormed([e1, e2])
    ensures Contributing([e1, e2]) == [e1, e2] && Named([e1, e2])
    ensures FlaggedEntries(e1, NonZero) == e1.result.value
    ensures FlaggedEntries(e2, NonZero) == e2.result.value
    ensures Contributed([e1, e2], NonZero, NodeB) == [7]
    ensures forall k :: |Contributed([e1, e2], NonZero, k)| < 2
  {
    var exps := [e1, e2];
    assert WellFormed(exps);
    assert exps[1..] == [e2] && exps[1..][1..] == [];
    assert Contributing(exps) == [e1, e2];
    assert FlaggedEntries(e1, NonZero) == e1.result.value;
    assert FlaggedEntries(e2, NonZero) == e2.result.value;
    forall k ensures |Contributed(exps, NonZero, k)| < 2 {
      assert Contributed(exps[1..], NonZero, k) == MediansFor(e2.result.value, k) + [];
      assert Contributed(exps, NonZero, k) == MediansFor(e1.result.value, k) + MediansFor(e2.result.value, k);
      assert NodeA != NodeB by { assert NodeA.name[0] != NodeB.name[0]; }
    }
    assert MediansFor(e2.result.value, NodeB) == [7];
    assert Contributed(exps[1..], NonZero, NodeB) == [7] + [];
  }

  /** On the disjoint input the source's table raises: every row is one value short of the
      header, and the DataFrame constructor rejects the column count. */
  lemma RaggedTableRaises(e1: Experiment<int>, e2: Experiment<int>)
    requires DisjointInput(e1, e2)
    ensures WellFormed([e1, e2])
    ensures ComparisonTable([e1, e2], NonZero, 0) == Failure(ColumnCountMismatch)
  {
    DisjointSetup(e1, e2);
    assert Contributed([e1, e2], NonZero, NodeB) != [];
  }

  /** On the disjoint input the aligned table builds, with node B's 7 under experiment 2's
      label. */
  lemma AlignedTableBuilds(e1: Experiment<int>, e2: Experiment<int>)
    requires DisjointInput(e1, e2)
    ensures WellFormed([e1, e2])
    ensures AlignedTable([e1, e2], NonZero, 0).Success?
    ensures exists i ::
      && 0 <= i < |AlignedTable([e1, e2], NonZero, 0).value.rows|
      && AlignedTable([e1, e2], NonZero, 0).value.rows[i] == Row(NodeB, [0, 7])
  {
    DisjointSetup(e1, e2);
    DisjointAlignedRow(e1, e2);
    AlignedRowIs([e1, e2], NonZero, 0, NodeB, [0, 7]);
  }

  /** On the disjoint input, node B's aligned row is `[0, 7]`. */
  lemma DisjointAlignedRow(e1: Experiment<int>, e2: Experiment<int>)
    requires DisjointInput(e1, e2)
    ensures WellFormed([e1, e2])
    ensures AlignedRow([e1, e2], NonZero, NodeB, 0) == [0, 7]
  {
    var exps := [e1, e2];
    DisjointSetup(e1, e2);
    var vs := AlignedRow(exps, NonZero, NodeB, 0);
    assert FlaggedEntries(exps[1], NonZero)[0].node == NodeB;
    assert FlaggedEntries(exps[0], NonZero)[0].node != NodeB;
  }

  // ---------------------------------------------------------------- clustering

  /** A table row with its cluster group (`labels + 1`). */
  datatype Grouped<V> = Grouped(row: Row<V>, group: nat)

  function ByGroup<V>(): (Grouped<V>, Grouped<V>) -> bool {
    (a: Grouped<V>, b: Grouped<V>) => a.group <= b.group
  }

  lemma ByGroupIsTotalPreorder<V(!new)>()
    ensures Sorting.TotalPreorder(ByGroup<V>())
  {
  }

  /** Each row tagged with its label plus one, in table order. */
  function Tagged<V>(rows: seq<Row<V>>, labels: seq<nat>): (r: seq<Grouped<V>>)
    requires |labels| == |rows|
    ensures |r| == |rows|
    ensures forall i :: 0 <= i < |r| ==> r[i] == Grouped(rows[i], labels[i] + 1)
  {
    seq(|rows|, i requires 0 <= i < |rows| => Grouped(rows[i], labels[i] + 1))
  }

  /** The header gains a `Group` column and the rows are ordered by group. Cluster labels
      come from k-means, which is a parameter here. */
  function Cluster<V(!new)>(t: Table<V>, labels: seq<nat>, k: nat): (r: (seq<string>, seq<Grouped<V>>))
    requires |labels| == |t.rows|
    requires forall i :: 0 <= i < |labels| ==> labels[i] < k
    ensures r.0 == t.header + ["Group"]
    ensures multiset(r.1) == multiset(Tagged(t.rows, labels))
    ensures forall i :: 0 <= i < |r.1| ==> 1 <= r.1[i].group <= k
    ensures forall i, j :: 0 <= i < j < |r.1| ==> r.1[i].group <= r.1[j].group
  {
    ByGroupIsTotalPreorder<V>();
    var tagged := Tagged(t.rows, labels);
    var sorted := Sorting.InsertionSort(tagged, ByGroup());
    assert forall i :: 0 <= i < |sorted| ==> sorted[i] in multiset(tagged);
    (t.header + ["Group"], sorted)
  }

  // ---------------------------------------------------------------- listing

  /** The optional filters of the experiment listing. */
  predicate Matches<V>(e: Experiment<V>, queryId: Option<nat>, omicId: Option<nat>) {
    && (queryId.Some? ==> e.queryId == queryId.value)
    && (omicId.Some? ==> e.omic.id == omicId.value)
  }

  function Matching<V>(exps: seq<Experiment<V>>, queryId: Option<nat>, omicId: Option<nat>): (r: seq<Experiment<V>>)
    ensures |r| <= |exps|
    ensures forall i :: 0 <= i < |r| ==> r[i] in exps && Matches(r[i], queryId, omicId)
    ensures forall i :: 0 <= i < |exps| && Matches(exps[i], queryId, omicId) ==> exps[i] in r
  {
    if |exps| == 0 then []
    else
      var rest := Matching(exps[1..], queryId, omicId);
      assert forall i :: 1 <= i < |exps| ==> exps[i] == exps[1..][i - 1];
      (if Matches(exps[0], queryId, omicId) then [exps[0]] else []) + rest
  }

  /** The filters keep the stored order: filtering a concatenation filters each part. */
  lemma {:induction false} MatchingConcat<V>(a: seq<Experiment<V>>, b: seq<Experiment<V>>, queryId: Option<nat>, omicId: Option<nat>)
    ensures Matching(a + b, queryId, omicId) == Matching(a, queryId, omicId) + Matching(b, queryId, omicId)
  {
    MatchingIsKeep(a + b, queryId, omicId);
    MatchingIsKeep(a, queryId, omicId);
    MatchingIsKeep(b, queryId, omicId);
    Filters.KeepConcat(a, b, MatchesFilter(queryId, omicId));
  }

  function MatchesFilter<V>(queryId: Option<nat>, omicId: Option<nat>): Experiment<V> -> bool {
    (e: Experiment<V>) => Matches(e, queryId, omicId)
  }

  /** The listing filter is the generic order-preserving filter. */
  lemma {:induction false} MatchingIsKeep<V>(s: seq<Experiment<V>>, queryId: Option<nat>, omicId: Option<nat>)
    ensures Matching(s, queryId, omicId) == Filters.Keep(s, MatchesFilter(queryId, omicId))
  {
    if |s| > 0 {
      MatchingIsKeep(s[1..], queryId, omicId);
    }
  }

  /** A single experiment is kept exactly when it matches. */
  lemma MatchingSingleton<V>(x: Experiment<V>, queryId: Option<nat>, omicId: Option<nat>)
    ensures Matching([x], queryId, omicId) == if Matches(x, queryId, omicId) then [x] else []
  {
    assert [x][1..] == [];
  }

  function NewestFirst<V>(): (Experiment<V>, Experiment<V>) -> bool {
    (a: Experiment<V>, b: Experiment<V>) => a.created >= b.created
  }

  lemma NewestFirstIsTotalPreorder<V(!new)>()
    ensures Sorting.TotalPreorder(NewestFirst<V>())
  {
  }

  /** The experiment listing: the experiments that pass both optional filters, newest first. */
  function ViewExperiments<V(!new)>(exps: seq<Experiment<V>>, queryId: Option<nat>, omicId: Option<nat>): (r: seq<Experiment<V>>)
    ensures multiset(r) == multiset(Matching(exps, queryId, omicId))
    ensures forall i :: 0 <= i < |r| ==> Matches(r[i], queryId, omicId)
    ensures forall i, j :: 0 <= i < j < |r| ==> r[i].created >= r[j].created
  {
    NewestFirstIsTotalPreorder<V>();
    var m := Matching(exps, queryId, omicId);
    var r := Sorting.InsertionSort(m, NewestFirst());
    PermutationMatches(m, r, queryId, omicId);
    r
  }

  /** A rearrangement of matching experiments holds only matching experiments. */
  lemma PermutationMatches<V>(m: seq<Experiment<V>>, r: seq<Experiment<V>>, queryId: Option<nat>, omicId: Option<nat>)
    requires forall i :: 0 <= i < |m| ==> Matches(m[i], queryId, omicId)
    requires multiset(r) == multiset(m)
    ensures forall i :: 0 <= i < |r| ==> Matches(r[i], queryId, omicId)
  {
    forall i | 0 <= i < |r| ensures Matches(r[i], queryId, omicId) {
      assert r[i] in multiset(m);
      var j :| 0 <= j < |m| && m[j] == r[i];
    }
  }
}
