/** The helpers that bulk-load sample content: path arithmetic for CBN JSON graphs, the
    blacklist filter used when uploading a directory of BEL documents, the argument guards of
    the directory upload, the selection and renaming of the NeuroMMSig sample subgraphs, and
    the guards around Bio2BEL managers.

    The file system is passed in: directory listings are sequences, existence tests are
    booleans, and the graphs a repository or a manager produces are inputs. Writing pickles
    and manifests and inserting into the store are left out; the inserted graphs are returned
    instead. */
module Loaders {
  import opened Wrappers
  import Text

  const JgfExtension := ".jgf"
  const GpickleExtension := ".gpickle"

  // ---------------------------------------------------------------- paths

  /** Python's `s[:-n]` for a positive `n`: everything but the last `n` characters, and the
      empty string when `s` is shorter than that. */
  function DropLast(s: string, n: nat): (r: string)
    requires 0 < n
    ensures n <= |s| ==> r == s[..|s| - n]
    ensures |s| < n ==> r == ""
  {
    if n <= |s| then s[..|s| - n] else ""
  }

  /** The pickle cached next to a CBN JSON file: the path minus its last four characters,
      plus the pickle extension. */
  function GpickleFor(path: string): (r: string)
    ensures Text.EndsWith(r, GpickleExtension)
    ensures |JgfExtension| <= |path| ==> r == path[..|path| - |JgfExtension|] + GpickleExtension
    ensures |path| < |JgfExtension| ==> r == GpickleExtension
  {
    Text.EndsWithConcat(DropLast(path, |JgfExtension|), GpickleExtension);
    DropLast(path, |JgfExtension|) + GpickleExtension
  }

  /** For a JSON graph file the pickle sits under the same stem. */
  lemma GpickleForJgf(stem: string)
    ensures GpickleFor(stem + JgfExtension) == stem + GpickleExtension
  {
    assert (stem + JgfExtension)[..|stem|] == stem;
  }

  /** Different JSON graph files never share a pickle. */
  lemma GpickleForInjective(a: string, b: string)
    requires Text.EndsWith(a, JgfExtension) && Text.EndsWith(b, JgfExtension)
    requires GpickleFor(a) == GpickleFor(b)
    ensures a == b
  {
    var sa := a[..|a| - |JgfExtension|];
    var sb := b[..|b| - |JgfExtension|];
    assert sa + GpickleExtension == sb + GpickleExtension;
    assert |sa| == |sb|;
    assert sa == (sa + GpickleExtension)[..|sa|] == (sb + GpickleExtension)[..|sb|] == sb;
    assert a == sa + JgfExtension;
    assert b == sb + JgfExtension;
  }

  /** `os.path.join` with two POSIX components. */
  function Join(directory: string, name: string): (r: string)
    ensures Text.EndsWith(r, name)
    ensures |name| > 0 && name[0] == '/' ==> r == name
    ensures (|name| == 0 || name[0] != '/') ==> Text.StartsWith(r, directory)
  {
    if |name| > 0 && name[0] == '/' then Text.EndsWithConcat([], name); name
    else if directory == [] || directory[|directory| - 1] == '/' then
      Text.EndsWithConcat(directory, name);
      assert (directory + name)[..|directory|] == directory;
      directory + name
    else
      Text.EndsWithConcat(directory + "/", name);
      assert (directory + "/" + name)[..|directory|] == directory;
      directory + "/" + name
  }

  /** The listed entries with the JSON graph extension, in listing order. */
  function JgfEntries(listing: seq<string>): (r: seq<string>)
    ensures |r| <= |listing|
    ensures forall i :: 0 <= i < |r| ==> r[i] in listing && Text.EndsWith(r[i], JgfExtension)
    ensures forall i :: 0 <= i < |listing| && Text.EndsWith(listing[i], JgfExtension) ==> listing[i] in r
  {
    if |listing| == 0 then []
    else
      var rest := JgfEntries(listing[1..]);
      assert forall i :: 1 <= i < |listing| ==> listing[i] == listing[1..][i - 1];
      if Text.EndsWith(listing[0], JgfExtension) then [listing[0]] + rest else rest
  }

  /** The filter keeps listing order: filtering a concatenation filters each part. */
  lemma {:induction false} JgfEntriesConcat(a: seq<string>, b: seq<string>)
    ensures JgfEntries(a + b) == JgfEntries(a) + JgfEntries(b)
  {
    if |a| > 0 {
      assert (a + b)[1..] == a[1..] + b;
      JgfEntriesConcat(a[1..], b);
    } else {
      assert a + b == b;
    }
  }

  /** `iter_jgf`: the JSON graph files of a directory listing, joined to the directory. */
  function IterJgf(directory: string, listing: seq<string>): (r: seq<string>)
    ensures |r| == |JgfEntries(listing)|
    ensures forall i :: 0 <= i < |r| ==> r[i] == Join(directory, JgfEntries(listing)[i])
    ensures forall i :: 0 <= i < |r| ==> Text.EndsWith(r[i], JgfExtension)
  {
    var entries := JgfEntries(listing);
    var r := seq(|entries|, i requires 0 <= i < |entries| => Join(directory, entries[i]));
    assert forall i :: 0 <= i < |r| ==> Text.EndsWith(r[i], JgfExtension) by {
      forall i | 0 <= i < |r| ensures Text.EndsWith(r[i], JgfExtension) {
        Text.EndsWithTransitive(r[i], entries[i], JgfExtension);
      }
    }
    r
  }

  /** Every yielded path's pickle is the entry's own pickle, inside the same directory. */
  lemma IterJgfPickles(directory: string, listing: seq<string>, i: int)
    requires 0 <= i < |IterJgf(directory, listing)|
    requires directory != "" && directory[|directory| - 1] != '/'
    requires 0 < |JgfEntries(listing)[i]| && JgfEntries(listing)[i][0] != '/'
    ensures GpickleFor(IterJgf(directory, listing)[i]) == directory + "/" + GpickleFor(JgfEntries(listing)[i])
  {
    var entry := JgfEntries(listing)[i];
    var stem := entry[..|entry| - |JgfExtension|];
    assert entry == stem + JgfExtension;
    GpickleForJgf(stem);
    assert directory + "/" + entry == (directory + "/" + stem) + JgfExtension;
    GpickleForJgf(directory + "/" + stem);
  }

  // ---------------------------------------------------------------- blacklists

  /** A graph is skipped when the blacklist is given, non-empty, and names it. */
  predicate Skipped(name: string, blacklist: Option<seq<string>>) {
    blacklist.Some? && |blacklist.value| > 0 && name in blacklist.value
  }

  /** The graphs that survive the blacklist, in iteration order. */
  function Kept<G>(graphs: seq<(string, G)>, blacklist: Option<seq<string>>): (r: seq<(string, G)>)
    ensures |r| <= |graphs|
    ensures forall i :: 0 <= i < |r| ==> !Skipped(r[i].0, blacklist)
  {
    if |graphs| == 0 then []
    else
      var init := Kept(graphs[..|graphs| - 1], blacklist);
      var last := graphs[|graphs| - 1];
      if Skipped(last.0, blacklist) then init else init + [last]
  }

  lemma {:induction false} KeptMembership<G>(graphs: seq<(string, G)>, blacklist: Option<seq<string>>, e: (string, G))
    ensures e in Kept(graphs, blacklist) <==> e in graphs && !Skipped(e.0, blacklist)
  {
    if |graphs| > 0 {
      var init := graphs[..|graphs| - 1];
      KeptMembership(init, blacklist, e);
      assert graphs == init + [graphs[|graphs| - 1]];
    }
  }

  /** Without a usable blacklist nothing is skipped. */
  lemma {:induction false} KeptAll<G>(graphs: seq<(string, G)>, blacklist: Option<seq<string>>)
    requires blacklist.None? || blacklist.value == []
    ensures Kept(graphs, blacklist) == graphs
  {
    if |graphs| > 0 {
      KeptAll(graphs[..|graphs| - 1], blacklist);
      assert graphs == graphs[..|graphs| - 1] + [graphs[|graphs| - 1]];
    }
  }

  /** `upload_pickles`: insert every graph of the repository that the blacklist does not
      name, returning the inserted ones in iteration order. */
  method UploadPickles<G(==)>(graphs: seq<(string, G)>, blacklist: Option<seq<string>>) returns (r: seq<(string, G)>)
    ensures r == Kept(graphs, blacklist)
    ensures forall e :: e in r <==> e in graphs && !Skipped(e.0, blacklist)
  {
    r := [];
    var i := 0;
    while i < |graphs|
      invariant 0 <= i <= |graphs|
      invariant r == Kept(graphs[..i], blacklist)
    {
      assert graphs[..i + 1][..i] == graphs[..i];
      var entry := graphs[i];
      if !(blacklist.Some? && |blacklist.value| > 0 && entry.0 in blacklist.value) {
        r := r + [entry];
      }
      i := i + 1;
    }
    assert graphs[..i] == graphs;
    forall e ensures e in r <==> e in graphs && !Skipped(e.0, blacklist) {
      KeptMembership(graphs, blacklist, e);
    }
  }

  /** The blacklist argument of a directory upload, by its Python type. */
  datatype BlacklistArg = SetArg(items: seq<string>) | TupleArg(items: seq<string>) | ListArg(items: seq<string>)
                        | OtherArg(typeName: string)

  /** How a directory upload ended: nothing to do, a type error, or the uploaded graphs
      (which the manifest then lists). */
  datatype DirectoryResult<G> = NoDirectory | WrongType(message: string) | Uploaded(networks: seq<(string, G)>)

  function WrongTypeMessage(typeName: string): string {
    "blacklist is wrong type: " + typeName
  }

  /** `upload_bel_directory` as written: the blacklist is checked but never passed on. */
  function UploadBelDirectory<G>(exists_: bool, isDir: bool, blacklist: Option<BlacklistArg>, graphs: seq<(string, G)>): (r: DirectoryResult<G>)
    ensures !(exists_ && isDir) <==> r.NoDirectory?
    ensures exists_ && isDir && blacklist.Some? && blacklist.value.OtherArg? ==>
      r == WrongType(WrongTypeMessage(blacklist.value.typeName))
    ensures r.WrongType? ==> blacklist.Some? && blacklist.value.OtherArg?
    ensures r.Uploaded? ==> r.networks == graphs
  {
    if !(exists_ && isDir) then NoDirectory
    else if blacklist.Some? && blacklist.value.OtherArg? then WrongType(WrongTypeMessage(blacklist.value.typeName))
    else
      KeptAll(graphs, None);
      Uploaded(Kept(graphs, None))
  }

  /** `upload_bel_directory` passing its blacklist on, as its signature and callers intend. */
  function UploadBelDirectoryForwarding<G>(exists_: bool, isDir: bool, blacklist: Option<BlacklistArg>, graphs: seq<(string, G)>): (r: DirectoryResult<G>)
    ensures !(exists_ && isDir) <==> r.NoDirectory?
    ensures exists_ && isDir && blacklist.Some? && blacklist.value.OtherArg? ==>
      r == WrongType(WrongTypeMessage(blacklist.value.typeName))
    ensures r.WrongType? ==> blacklist.Some? && blacklist.value.OtherArg?
    ensures r.Uploaded? ==> forall i :: 0 <= i < |r.networks| ==> r.networks[i] in graphs && !Skipped(r.networks[i].0, Items(blacklist))
    ensures r.Uploaded? ==> forall i :: 0 <= i < |graphs| && !Skipped(graphs[i].0, Items(blacklist)) ==> graphs[i] in r.networks
    ensures r.Uploaded? ==> r.networks == Kept(graphs, Items(blacklist))
  {
    if !(exists_ && isDir) then NoDirectory
    else if blacklist.Some? && blacklist.value.OtherArg? then WrongType(WrongTypeMessage(blacklist.value.typeName))
    else
      var kept := Kept(graphs, Items(blacklist));
      assert forall i :: 0 <= i < |kept| ==> kept[i] in graphs && !Skipped(kept[i].0, Items(blacklist)) by {
        forall i | 0 <= i < |kept| ensures kept[i] in graphs && !Skipped(kept[i].0, Items(blacklist)) {
          KeptMembership(graphs, Items(blacklist), kept[i]);
        }
      }
      assert forall i :: 0 <= i < |graphs| && !Skipped(graphs[i].0, Items(blacklist)) ==> graphs[i] in kept by {
        forall i | 0 <= i < |graphs| && !Skipped(graphs[i].0, Items(blacklist)) ensures graphs[i] in kept {
          KeptMembership(graphs, Items(blacklist), graphs[i]);
        }
      }
      Uploaded(kept)
  }

  function Items(blacklist: Option<BlacklistArg>): Option<seq<string>> {
    if blacklist.Some? && !blacklist.value.OtherArg? then Some(blacklist.value.items) else None
  }

  /** Loading the Alzheimer's directory with `blacklist=['alzheimers']` still uploads the
      `alzheimers` graph. */
  lemma BlacklistIgnored<G>(graphs: seq<(string, G)>, g: G)
    requires |graphs| > 0 && graphs[0] == ("alzheimers", g)
    ensures var r := UploadBelDirectory(true, true, Some(ListArg(["alzheimers"])), graphs);
      r.Uploaded? && r.networks[0] == ("alzheimers", g)
  {
  }

  /** With the blacklist passed on, the `alzheimers` graph is skipped. */
  lemma BlacklistForwarded<G>(graphs: seq<(string, G)>, g: G)
    requires ("alzheimers", g) in graphs
    ensures var r := UploadBelDirectoryForwarding(true, true, Some(ListArg(["alzheimers"])), graphs);
      r.Uploaded? && ("alzheimers", g) !in r.networks
  {
    KeptMembership(graphs, Some(["alzheimers"]), ("alzheimers", g));
  }

  // ---------------------------------------------------------------- NeuroMMSig samples

  const SampleNetworks: seq<string> := [
    "Low density lipoprotein subgraph",
    "GABA subgraph",
    "Notch signaling subgraph",
    "Reactive oxygen species subgraph"]

  const SamplePrefix := "NeuroMMSig AD "
  const SampleAuthors := "Daniel Domingo-Fernandez et. al"

  /** A graph's header fields the upload touches, around its (opaque) content. */
  datatype Graph<C> = Graph(name: string, authors: string, version: Option<string>, license: Option<string>, content: C)

  /** Where the Alzheimer's graph comes from: its pickle, its BEL script, or neither. */
  datatype SourceFile = PickleFile | BelFile | NoSource

  datatype NeuroResult<C> = NoAlzheimerDirectory | MissingSource(message: string) | Samples(networks: seq<(string, Graph<C>)>)

  /** The sample subgraphs in the order the annotation grouping yields them. */
  function SelectSamples<C>(subgraphs: seq<(string, Graph<C>)>): (r: seq<(string, Graph<C>)>)
    ensures |r| <= |subgraphs|
    ensures forall i :: 0 <= i < |r| ==> r[i].0 in SampleNetworks
  {
    if |subgraphs| == 0 then []
    else
      var init := SelectSamples(subgraphs[..|subgraphs| - 1]);
      var last := subgraphs[|subgraphs| - 1];
      if last.0 in SampleNetworks then init + [last] else init
  }

  /** Exactly the subgraphs with a sample name are kept. */
  lemma {:induction false} SelectSamplesMembership<C>(subgraphs: seq<(string, Graph<C>)>, e: (string, Graph<C>))
    ensures e in SelectSamples(subgraphs) <==> e in subgraphs && e.0 in SampleNetworks
  {
    if |subgraphs| > 0 {
      var init := subgraphs[..|subgraphs| - 1];
      SelectSamplesMembership(init, e);
      assert subgraphs == init + [subgraphs[|subgraphs| - 1]];
    }
  }

  /** One sample subgraph after renaming: new name, fixed authors, the parent's version and
      license, content untouched. */
  function Relabel<C>(name: string, sub: Graph<C>, parent: Graph<C>): (g: Graph<C>)
    ensures g.name == SamplePrefix + name && g.authors == SampleAuthors
    ensures g.version == parent.version && g.license == parent.license && g.content == sub.content
  {
    sub.(name := SamplePrefix + name, authors := SampleAuthors, version := parent.version, license := parent.license)
  }

  /** `upload_neurommsig_graphs`: guard the directory and the source file, keep the sample
      subgraphs and relabel each; the results are paired with the pickle path they are
      written to. */
  function UploadNeurommsig<C>(alzheimerDirectory: string, neurommsigDirectory: string, dirExists: bool,
                               source: SourceFile, parent: Graph<C>,
                               subgraphs: seq<(string, Graph<C>)>): (r: NeuroResult<C>)
    ensures !dirExists <==> r.NoAlzheimerDirectory?
    ensures dirExists && source.NoSource? <==>
      r == MissingSource("missing NeuroMMSig source file: " + Join(alzheimerDirectory, "alzheimers.bel"))
    ensures r.Samples? ==> |r.networks| == |SelectSamples(subgraphs)|
    ensures r.Samples? ==> forall i :: 0 <= i < |r.networks| ==>
      && r.networks[i].0 == Join(neurommsigDirectory, SelectSamples(subgraphs)[i].0 + ".gpickle")
      && r.networks[i].1 == Relabel(SelectSamples(subgraphs)[i].0, SelectSamples(subgraphs)[i].1, parent)
  {
    if !dirExists then NoAlzheimerDirectory
    else if source.NoSource? then MissingSource("missing NeuroMMSig source file: " + Join(alzheimerDirectory, "alzheimers.bel"))
    else
      var kept := SelectSamples(subgraphs);
      Samples(seq(|kept|, i requires 0 <= i < |kept| =>
        (Join(neurommsigDirectory, kept[i].0 + ".gpickle"), Relabel(kept[i].0, kept[i].1, parent))))
  }

  /** Distinct subgraph names give distinct network names. */
  lemma RelabelInjective<C>(a: string, b: string, sa: Graph<C>, sb: Graph<C>, parent: Graph<C>)
    requires Relabel(a, sa, parent).name == Relabel(b, sb, parent).name
    ensures a == b
  {
    assert a == (SamplePrefix + a)[|SamplePrefix|..];
    assert b == (SamplePrefix + b)[|SamplePrefix|..];
  }

  /** Every uploaded sample carries one of the four sample names after the prefix. */
  lemma UploadedSampleNames<C>(alzheimerDirectory: string, neurommsigDirectory: string, source: SourceFile,
                               parent: Graph<C>, subgraphs: seq<(string, Graph<C>)>, i: int)
    requires var r := UploadNeurommsig(alzheimerDirectory, neurommsigDirectory, true, source, parent, subgraphs);
      r.Samples? && 0 <= i < |r.networks|
    ensures var g := UploadNeurommsig(alzheimerDirectory, neurommsigDirectory, true, source, parent, subgraphs).networks[i].1;
      exists n :: n in SampleNetworks && g.name == SamplePrefix + n
  {
    var kept := SelectSamples(subgraphs);
    assert kept[i].0 in SampleNetworks;
  }

  // ---------------------------------------------------------------- Bio2BEL managers

  /** What is passed as a Bio2BEL manager: nothing, some other object, or a manager that may
      already be populated and may be able to export BEL. */
  datatype ManagerArg<G> = NoManager | NotAManager | Manager(populated: bool, toBel: Option<G>)

  /** The result of `upload_with_manager`: whether it populated the manager, and the graph it
      inserted, if any. */
  datatype ManagerResult<G> = ManagerResult(populatedNow: bool, inserted: Option<G>)

  function UploadWithManager<G>(m: ManagerArg<G>): (r: ManagerResult<G>)
    ensures (m.NoManager? || m.NotAManager?) ==> r == ManagerResult(false, None)
    ensures r.populatedNow <==> m.Manager? && !m.populated
    ensures r.inserted.Some? <==> m.Manager? && m.toBel.Some?
    ensures r.inserted.Some? ==> r.inserted == m.toBel
  {
    match m
    case NoManager => ManagerResult(false, None)
    case NotAManager => ManagerResult(false, None)
    case Manager(populated, toBel) => ManagerResult(!populated, toBel)
  }
}
