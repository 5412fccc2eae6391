/** Uploaded -omics data sets and the experiments that score a query's graph against them.

    Data values and result values are of an abstract type `V`. Where the source tests a value
    for truth (`if scores[0]`), the caller supplies that test as `truthy`. The stored result is
    kept as the list of (node, score tuple) pairs it unpickles to, in the dictionary's order. */
module Experiments {
  import opened Wrappers
  import Text
  import Users

  /** A graph node as the comparison table names it: function, namespace and name. */
  datatype Node = Node(func: string, namespace: string, name: string)

  /** One row of an omic table, reduced to its gene column (nullable) and its data column. */
  datatype SourceRow<V> = SourceRow(gene: Option<string>, value: V)

  /** An uploaded data set. Its source name column is nullable. */
  datatype Omic<V> = Omic(id: nat, public: bool, sourceName: Option<string>, rows: seq<SourceRow<V>>)

  /** One scored node. The tuple's position 0 is the significance flag, position 3 the median. */
  datatype Scored<V> = Scored(node: Node, scores: seq<V>)

  datatype Experiment<V> = Experiment(
    id: nat,
    created: int,
    queryId: nat,
    omic: Omic<V>,
    user: Option<Users.User>,
    public: bool,
    permutations: int,
    result: Option<seq<Scored<V>>>,
    completed: bool,
    time: Option<real>)

  const TsvExtension := ".tsv"
  const CsvExtension := ".csv"

  /** `Omic.pretty_source_name`: the name without one trailing `.tsv`, or else without one
      trailing `.csv`, or else unchanged. Testing the suffix of a null name raises; that is
      `None` here. */
  function PrettySourceName(name: Option<string>): (r: Option<string>)
    ensures r.None? <==> name.None?
    ensures name.Some? && Text.EndsWith(name.value, TsvExtension) ==> r.value + TsvExtension == name.value
    ensures name.Some? && !Text.EndsWith(name.value, TsvExtension) && Text.EndsWith(name.value, CsvExtension) ==>
      r.value + CsvExtension == name.value
    ensures name.Some? && !Text.EndsWith(name.value, TsvExtension) && !Text.EndsWith(name.value, CsvExtension) ==>
      r == name
  {
    match name
    case None => None
    case Some(n) =>
      if Text.EndsWith(n, TsvExtension) then Some(n[..|n| - |TsvExtension|])
      else if Text.EndsWith(n, CsvExtension) then Some(n[..|n| - |CsvExtension|])
      else name
  }

  /** Only one extension is removed: `a.csv.tsv` becomes `a.csv`. */
  lemma PrettySourceNameStripsOnce()
    ensures PrettySourceName(Some("a.csv.tsv")) == Some("a.csv")
  {
    assert Text.EndsWith("a.csv.tsv", TsvExtension);
    assert "a.csv" + TsvExtension == "a.csv.tsv";
  }

  /** `Experiment.source_name`: the pretty name of the experiment's data set; `None` where
      that raises. */
  function SourceName<V>(e: Experiment<V>): (r: Option<string>)
    ensures r.Some? <==> e.omic.sourceName.Some?
  {
    PrettySourceName(e.omic.sourceName)
  }

  /** Row `i` is the last row carrying its gene. */
  ghost predicate LastWithGene<V>(rows: seq<SourceRow<V>>, i: int)
    requires 0 <= i < |rows|
  {
    forall j :: i < j < |rows| ==> rows[j].gene != rows[i].gene
  }

  /** `Omic.get_source_dict`: gene to value, built from the rows whose gene is not null. The
      keys are exactly the non-null genes, and for a gene listed twice the later row wins. */
  function SourceDict<V>(rows: seq<SourceRow<V>>): (d: map<string, V>)
    ensures forall g :: g in d <==> exists i :: 0 <= i < |rows| && rows[i].gene == Some(g)
    ensures forall i :: 0 <= i < |rows| && rows[i].gene.Some? && LastWithGene(rows, i) ==>
      d[rows[i].gene.value] == rows[i].value
  {
    if |rows| == 0 then map[]
    else
      var init := rows[..|rows| - 1];
      var last := rows[|rows| - 1];
      var d := SourceDict(init);
      assert forall i :: 0 <= i < |init| ==> init[i] == rows[i];
      if last.gene.Some? then d[last.gene.value := last.value] else d
  }

  /** Every tuple has the position the truth test reads. */
  ghost predicate Flagged<V>(entries: seq<Scored<V>>) {
    forall i :: 0 <= i < |entries| ==> 0 < |entries[i].scores|
  }

  /** `Experiment.get_data_list`: the entries whose flag is true, in stored order. */
  function DataList<V>(entries: seq<Scored<V>>, truthy: V -> bool): (r: seq<Scored<V>>)
    requires Flagged(entries)
    ensures forall i :: 0 <= i < |r| ==> r[i] in entries && truthy(r[i].scores[0])
    ensures forall i :: 0 <= i < |entries| && truthy(entries[i].scores[0]) ==> entries[i] in r
    ensures |r| <= |entries|
  {
    if |entries| == 0 then []
    else
      var rest := DataList(entries[1..], truthy);
      assert forall i :: 1 <= i < |entries| ==> entries[i] == entries[1..][i - 1];
      if truthy(entries[0].scores[0]) then [entries[0]] + rest else rest
  }

  /** The data list keeps stored order: the list of a concatenation is the lists of its parts. */
  lemma {:induction false} DataListConcat<V>(a: seq<Scored<V>>, b: seq<Scored<V>>, truthy: V -> bool)
    requires Flagged(a) && Flagged(b)
    ensures Flagged(a + b)
    ensures DataList(a + b, truthy) == DataList(a, truthy) + DataList(b, truthy)
  {
    FlaggedConcat(a, b);
    if |a| > 0 {
      assert (a + b)[1..] == a[1..] + b;
      DataListConcat(a[1..], b, truthy);
    } else {
      assert a + b == b;
    }
  }

  /** A single entry is kept exactly when it is flagged. */
  lemma DataListSingleton<V>(x: Scored<V>, truthy: V -> bool)
    requires 0 < |x.scores|
    ensures Flagged([x])
    ensures DataList([x], truthy) == if truthy(x.scores[0]) then [x] else []
  {
    assert [x][1..] == [];
  }

  lemma FlaggedConcat<V>(a: seq<Scored<V>>, b: seq<Scored<V>>)
    requires Flagged(a) && Flagged(b)
    ensures Flagged(a + b)
  {
    forall i | 0 <= i < |a + b| ensures 0 < |(a + b)[i].scores| {
      if i < |a| {
        assert (a + b)[i] == a[i];
      } else {
        assert (a + b)[i] == b[i - |a|];
      }
    }
  }

  /** `Experiment.dump_results`: stores the scores and marks the experiment complete; nothing
      else about the experiment changes. */
  function DumpResults<V>(e: Experiment<V>, scores: seq<Scored<V>>): (r: Experiment<V>)
    ensures r.completed && r.result.Some?
    ensures r.(result := e.result, completed := e.completed) == e
    ensures r.result.value == scores
  {
    e.(result := Some(scores), completed := true)
  }

  /** What is stored is what is read back: after dumping, the data list is the flagged scores. */
  lemma DumpedDataList<V>(e: Experiment<V>, scores: seq<Scored<V>>, truthy: V -> bool)
    requires Flagged(scores)
    ensures var r := DumpResults(e, scores).result.value;
      && Flagged(r)
      && (forall i :: 0 <= i < |scores| && truthy(scores[i].scores[0]) ==> scores[i] in DataList(r, truthy))
      && (forall s :: s in DataList(r, truthy) ==> s in scores && truthy(s.scores[0]))
  {
  }

  /** `User.has_experiment_rights`: public experiments and administrators pass; otherwise the
      user must equal (by e-mail) the experiment's owner. With no owner, that comparison raises,
      which is `None` here. */
  function HasExperimentRights<V>(u: Users.User, e: Experiment<V>): (r: Option<bool>)
    ensures r == Some(true) <==>
      e.public || Users.IsAdmin(u) || (e.user.Some? && e.user.value.email == u.email)
    ensures r.None? <==> !e.public && !Users.IsAdmin(u) && e.user.None?
  {
    if e.public || Users.IsAdmin(u) then Some(true)
    else if e.user.None? then None
    else Some(u.email == e.user.value.email)
  }
}
