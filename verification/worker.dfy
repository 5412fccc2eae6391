/** The decision logic of the background tasks: the upload parser that validates a BEL
    document and records the outcome on its Report, the analysis task that completes an
    Experiment, and the parse-by-URL task.

    Everything the tasks read from the outside world arrives as a parameter: the parser's
    outcome, the network already stored under the same name and version, the result of the
    blob hash comparison, the result of inserting the graph, whether mail is configured, and
    the scoring function. Sending mail, logging and session commits are left out; only the
    ways in which mail makes a task raise are kept. */
module Worker {
  import opened Wrappers
  import Text
  import Users
  import Reports
  import Experiments

  type NetworkId = nat

  /** The parts of a parsed BEL graph the parser looks at. The document metadata keeps the
      dictionary's insertion order. */
  datatype Graph = Graph(name: Option<string>, version: Option<string>, document: seq<(string, string)>)

  /** How parsing the uploaded document ended. */
  datatype ParseOutcome =
    | ConnectionFailed
    | Redefined(definition: string, line: nat)
    | ParseError(error: string)
    | Parsed(graph: Graph)

  /** How inserting the graph into the store ended. */
  datatype InsertOutcome =
    | Inserted(id: NetworkId)
    | IntegrityError
    | OperationalError
    | OtherError(error: string)

  /** The network already stored under the uploaded graph's name and version. `hasReport` is
      false when the stored network has no report row; `text` is its string form. */
  datatype ExistingNetwork = ExistingNetwork(
    id: NetworkId,
    text: string,
    hasReport: bool,
    reportUser: Option<Users.User>,
    users: seq<Users.User>)

  // ---------------------------------------------------------------- default metadata

  /** The metadata keys of a BEL document's header that the parser inspects. */
  const DescriptionKey := "description"
  const ContactKey := "contact"
  const LicensesKey := "licenses"

  /** The placeholder values a document template ships with, per metadata key. */
  const DefaultMetadata: map<string, set<string>> := map[
    DescriptionKey := {"Document description"},
    ContactKey := {"your@email.com"},
    LicensesKey := {"Document license"}]

  predicate IsDefault(entry: (string, string)) {
    entry.0 in DefaultMetadata && entry.1 in DefaultMetadata[entry.0]
  }

  /** The document entries that still hold a template placeholder, in document order. */
  function DefaultEntries(document: seq<(string, string)>): (r: seq<(string, string)>)
    ensures |r| <= |document|
    ensures forall i :: 0 <= i < |r| ==> r[i] in document && IsDefault(r[i])
    ensures forall i :: 0 <= i < |document| && IsDefault(document[i]) ==> document[i] in r
  {
    if |document| == 0 then []
    else
      var rest := DefaultEntries(document[1..]);
      assert forall i :: 1 <= i < |document| ==> document[i] == document[1..][i - 1];
      if IsDefault(document[0]) then [document[0]] + rest else rest
  }

  /** The placeholder entries keep document order: those of a concatenation are those of its
      parts. */
  lemma {:induction false} DefaultEntriesConcat(a: seq<(string, string)>, b: seq<(string, string)>)
    ensures DefaultEntries(a + b) == DefaultEntries(a) + DefaultEntries(b)
  {
    if |a| > 0 {
      assert (a + b)[1..] == a[1..] + b;
      DefaultEntriesConcat(a[1..], b);
    } else {
      assert a + b == b;
    }
  }

  /** A single entry is kept exactly when it is a placeholder. */
  lemma DefaultEntriesSingleton(x: (string, string))
    ensures DefaultEntries([x]) == if IsDefault(x) then [x] else []
  {
    assert [x][1..] == [];
  }

  /** A document's header with none of the placeholders is never rejected. */
  lemma DefaultEntriesEmpty(document: seq<(string, string)>)
    ensures DefaultEntries(document) == [] <==> forall i :: 0 <= i < |document| ==> !IsDefault(document[i])
  {
    if DefaultEntries(document) != [] {
      assert DefaultEntries(document)[0] in document;
    }
  }

  // ---------------------------------------------------------------- messages

  /** The subject lines of the early exits. */
  datatype Subject = ParsingFailed | DocumentRejected | UploadFailed | GrantedRights

  /** The messages the parser can leave on a report. */
  datatype Message =
    | NoConnection
    | RedefinedAt(definition: string, line: nat)
    | GeneralError(error: string)
    | MissingName
    | MissingVersion
    | DefaultMetadataFound(entries: seq<(string, string)>)
    | Duplicate(name: string, version: string)
    | Granted(network: string, email: string)
    | DatabaseLocked
    | StoreError(error: string)

  /** Python's `repr` of a dictionary of strings, for texts without quotes. */
  function DictRepr(entries: seq<(string, string)>): (r: string)
    ensures 2 <= |r| && r[0] == '{' && r[|r| - 1] == '}'
  {
    "{" + DictItems(entries) + "}"
  }

  function DictItems(entries: seq<(string, string)>): string {
    if |entries| == 0 then ""
    else
      var item := "'" + entries[0].0 + "': '" + entries[0].1 + "'";
      if |entries| == 1 then item else item + ", " + DictItems(entries[1..])
  }

  /** The message text. The duplicate-network text is a template defined outside this
      model, so it is a parameter. */
  function Render(m: Message, duplicate: (string, string) -> string): (t: string)
    ensures !m.Duplicate? ==> t != ""
    ensures m.Duplicate? ==> t == duplicate(m.name, m.version)
  {
    match m
    case NoConnection => "Connection to resource could not be established."
    case RedefinedAt(d, line) =>
      "Parsing failed because " + d + " was redefined on line " + Text.NatToString(line) + "."
    case GeneralError(e) => "Parsing failed from a general error: " + e
    case MissingName => "Graph does not have a name"
    case MissingVersion => "Graph does not have a version"
    case DefaultMetadataFound(entries) =>
      "Your document was rejected because it has \"default\" metadata: " + DictRepr(entries)
    case Duplicate(name, version) => duplicate(name, version)
    case Granted(network, email) => "Granted rights for " + network + " to " + email
    case DatabaseLocked => "Database is locked. Unable to upload."
    case StoreError(e) => "Error storing in database: " + e
  }

  // ---------------------------------------------------------------- the upload task

  /** How the upload task ended. An early exit records its message on the report and, when
      rights were granted, carries the duplicate network's new user list. */
  datatype Outcome =
    | EarlyExit(subject: Subject, message: Message, report: Reports.Report, grantedUsers: Option<seq<Users.User>>)
    | Uploaded(network: NetworkId, report: Reports.Report)
    | Crashed

  /** What the upload task runs with besides its report: the report's user, whether a mail
      extension is configured, and the duplicate-network template. */
  datatype Context = Context(uploader: Option<Users.User>, mail: bool, duplicate: (string, string) -> string)

  /** Python truthiness of an optional text. */
  predicate Truthy(t: Option<string>) {
    t.Some? && t.value != ""
  }

  /** User equality compares e-mail addresses, and comparing a user with no user raises. */
  function SameUser(a: Option<Users.User>, b: Option<Users.User>): (r: Option<bool>)
    ensures r.None? <==> a.Some? != b.Some?
    ensures r == Some(true) <==> (a.None? && b.None?) || (a.Some? && b.Some? && a.value.email == b.value.email)
  {
    if a.None? && b.None? then Some(true)
    else if a.None? || b.None? then None
    else Some(a.value.email == b.value.email)
  }

  /** `make_mail` addresses the report's user, so with mail configured and no user it raises. */
  predicate MailRaises(ctx: Context) {
    ctx.mail && ctx.uploader.None?
  }

  /** `finish_parsing`: mail the user, then record the message on the report; `completed` is
      left alone. A mail that raises ends the task before anything is recorded. */
  function Finish(report: Reports.Report, ctx: Context, subject: Subject, m: Message): (o: Outcome)
    ensures o.Crashed? <==> MailRaises(ctx)
    ensures o.EarlyExit? <==> !MailRaises(ctx)
    ensures !o.Uploaded?
    ensures o.EarlyExit? ==> o.subject == subject && o.message == m && o.grantedUsers.None?
    ensures o.EarlyExit? ==>
      o.report.message == Some(Render(m, ctx.duplicate)) && o.report.(message := report.message) == report
  {
    if MailRaises(ctx) then Crashed
    else EarlyExit(subject, m, report.(message := Some(Render(m, ctx.duplicate))), None)
  }

  /** The checks on a parsed graph, in the order the upload parser makes them. */
  function Validate(g: Graph): (r: Option<(Subject, Message)>)
    ensures !Truthy(g.name) ==> r == Some((ParsingFailed, MissingName))
    ensures Truthy(g.name) && !Truthy(g.version) ==> r == Some((ParsingFailed, MissingVersion))
    ensures Truthy(g.name) && Truthy(g.version) ==>
      (r.None? <==> DefaultEntries(g.document) == []) &&
      (r.Some? ==> r.value == (DocumentRejected, DefaultMetadataFound(DefaultEntries(g.document))))
  {
    if !Truthy(g.name) then Some((ParsingFailed, MissingName))
    else if !Truthy(g.version) then Some((ParsingFailed, MissingVersion))
    else
      var problem := DefaultEntries(g.document);
      if problem != [] then Some((DocumentRejected, DefaultMetadataFound(problem))) else None
  }

  /** Whether `u` already holds rights to a network with these users. The association table
      is keyed by user id, so a second row for the same id violates its key. */
  predicate Listed(users: seq<Users.User>, u: Users.User) {
    exists i :: 0 <= i < |users| && users[i].id == u.id
  }

  /** What happens when a network with the same name and version is already stored. A changed
      hash sends a warning through the mail extension, which must be configured; granting
      rights to a user who already holds them violates the association table's key. */
  function OnDuplicate(report: Reports.Report, ctx: Context, g: Graph, existing: ExistingNetwork, sameHash: bool): (o: Outcome)
    requires Truthy(g.name) && Truthy(g.version)
    ensures !existing.hasReport ==> o.Crashed?
    ensures existing.hasReport && SameUser(existing.reportUser, ctx.uploader).None? ==> o.Crashed?
    ensures existing.hasReport && SameUser(existing.reportUser, ctx.uploader) == Some(true) ==>
      o == Finish(report, ctx, UploadFailed, Duplicate(g.name.value, g.version.value))
    ensures existing.hasReport && SameUser(existing.reportUser, ctx.uploader) == Some(false) && !sameHash ==>
      (ctx.mail ==> o == Finish(report, ctx, UploadFailed, Duplicate(g.name.value, g.version.value))) &&
      (!ctx.mail ==> o.Crashed?)
    ensures existing.hasReport && SameUser(existing.reportUser, ctx.uploader) == Some(false) && sameHash ==>
      && ctx.uploader.Some?
      && (Listed(existing.users, ctx.uploader.value) ==> o.Crashed?)
      && (!Listed(existing.users, ctx.uploader.value) ==>
            && Finish(report, ctx, GrantedRights, Granted(existing.text, ctx.uploader.value.email)).EarlyExit?
            && o == Finish(report, ctx, GrantedRights, Granted(existing.text, ctx.uploader.value.email))
                   .(grantedUsers := Some(existing.users + [ctx.uploader.value])))
    ensures o.EarlyExit? && o.grantedUsers.Some? ==>
      && existing.hasReport && SameUser(existing.reportUser, ctx.uploader) == Some(false) && sameHash
      && ctx.uploader.Some? && !Listed(existing.users, ctx.uploader.value)
    ensures !o.Uploaded?
  {
    if !existing.hasReport then Crashed
    else
      match SameUser(existing.reportUser, ctx.uploader)
      case None => Crashed
      case Some(same) =>
        var failed := Finish(report, ctx, UploadFailed, Duplicate(g.name.value, g.version.value));
        if same then failed
        else if ctx.uploader.None? then
          // the uploader is None while the stored network's owner is a user: the comparison
          // above has already raised
          assert false; Crashed
        else if !sameHash then (if ctx.mail then failed else Crashed)
        else if Listed(existing.users, ctx.uploader.value) then Crashed
        else
          var exit := Finish(report, ctx, GrantedRights, Granted(existing.text, ctx.uploader.value.email));
          exit.(grantedUsers := Some(existing.users + [ctx.uploader.value]))
  }

  /** What happens when the graph is inserted: success mails the user and then marks the
      report completed. */
  function OnInsert(report: Reports.Report, ctx: Context, g: Graph, insert: InsertOutcome): (o: Outcome)
    requires Truthy(g.name) && Truthy(g.version)
    ensures insert.Inserted? && !MailRaises(ctx) ==> o == Uploaded(insert.id, report.(completed := Some(true)))
    ensures insert.Inserted? && MailRaises(ctx) ==> o.Crashed?
    ensures insert.IntegrityError? ==> o == Finish(report, ctx, UploadFailed, Duplicate(g.name.value, g.version.value))
    ensures insert.OperationalError? ==> o == Finish(report, ctx, UploadFailed, DatabaseLocked)
    ensures insert.OtherError? ==> o == Finish(report, ctx, UploadFailed, StoreError(insert.error))
  {
    match insert
    case Inserted(id) => if MailRaises(ctx) then Crashed else Uploaded(id, report.(completed := Some(true)))
    case IntegrityError => Finish(report, ctx, UploadFailed, Duplicate(g.name.value, g.version.value))
    case OperationalError => Finish(report, ctx, UploadFailed, DatabaseLocked)
    case OtherError(e) => Finish(report, ctx, UploadFailed, StoreError(e))
  }

  /** The upload task: parse, validate, deduplicate, insert. */
  function AsyncParser(report: Reports.Report, ctx: Context, parse: ParseOutcome,
                       existing: Option<ExistingNetwork>, sameHash: bool, insert: InsertOutcome): (o: Outcome)
    ensures parse.ConnectionFailed? ==> o == Finish(report, ctx, ParsingFailed, NoConnection)
    ensures parse.Redefined? ==> o == Finish(report, ctx, ParsingFailed, RedefinedAt(parse.definition, parse.line))
    ensures parse.ParseError? ==> o == Finish(report, ctx, ParsingFailed, GeneralError(parse.error))
    ensures parse.Parsed? && Validate(parse.graph).Some? ==>
      o == Finish(report, ctx, Validate(parse.graph).value.0, Validate(parse.graph).value.1)
    ensures parse.Parsed? && Validate(parse.graph).None? && existing.Some? ==>
      o == OnDuplicate(report, ctx, parse.graph, existing.value, sameHash)
    ensures parse.Parsed? && Validate(parse.graph).None? && existing.None? ==>
      o == OnInsert(report, ctx, parse.graph, insert)
  {
    match parse
    case ConnectionFailed => Finish(report, ctx, ParsingFailed, NoConnection)
    case Redefined(d, line) => Finish(report, ctx, ParsingFailed, RedefinedAt(d, line))
    case ParseError(e) => Finish(report, ctx, ParsingFailed, GeneralError(e))
    case Parsed(g) =>
      match Validate(g)
      case Some(problem) => Finish(report, ctx, problem.0, problem.1)
      case None =>
        if existing.Some? then OnDuplicate(report, ctx, g, existing.value, sameHash)
        else OnInsert(report, ctx, g, insert)
  }

  /** A graph that lacks both its name and its version is reported for the missing name. */
  lemma NameCheckedBeforeVersion(report: Reports.Report, ctx: Context, g: Graph,
                                 existing: Option<ExistingNetwork>, sameHash: bool, insert: InsertOutcome)
    requires !Truthy(g.name) && !Truthy(g.version)
    ensures AsyncParser(report, ctx, Parsed(g), existing, sameHash, insert) == Finish(report, ctx, ParsingFailed, MissingName)
  {
  }

  /** Placeholder metadata is caught before the duplicate check and the insert: nothing is
      granted and nothing is stored. */
  lemma DefaultMetadataRejected(report: Reports.Report, ctx: Context, g: Graph,
                                existing: Option<ExistingNetwork>, sameHash: bool, insert: InsertOutcome, i: int)
    requires Truthy(g.name) && Truthy(g.version)
    requires 0 <= i < |g.document| && IsDefault(g.document[i])
    ensures var o := AsyncParser(report, ctx, Parsed(g), existing, sameHash, insert);
      o == Finish(report, ctx, DocumentRejected, DefaultMetadataFound(DefaultEntries(g.document)))
  {
    assert g.document[i] in DefaultEntries(g.document);
  }

  /** When rights are granted to a user who does not hold them yet, the uploader gains
      exactly one entry in the network's user list and nobody else's entries change. */
  lemma GrantAppendsOnce(report: Reports.Report, ctx: Context, g: Graph, existing: ExistingNetwork, sameHash: bool)
    requires Truthy(g.name) && Truthy(g.version)
    requires existing.hasReport && SameUser(existing.reportUser, ctx.uploader) == Some(false) && sameHash
    requires ctx.uploader.Some? && !Listed(existing.users, ctx.uploader.value)
    ensures var o := OnDuplicate(report, ctx, g, existing, sameHash);
      && o.EarlyExit? && o.subject == GrantedRights && o.grantedUsers.Some?
      && multiset(existing.users)[ctx.uploader.value] == 0
      && multiset(o.grantedUsers.value)[ctx.uploader.value] == 1
      && (forall u :: u != ctx.uploader.value ==> multiset(o.grantedUsers.value)[u] == multiset(existing.users)[u])
  {
  }

  /** With mail configured and no user on the report, every run of the task crashes in
      `make_mail` before it records anything. */
  lemma MailWithoutUserCrashes(report: Reports.Report, ctx: Context, parse: ParseOutcome,
                               existing: Option<ExistingNetwork>, sameHash: bool, insert: InsertOutcome)
    requires ctx.mail && ctx.uploader.None?
    ensures AsyncParser(report, ctx, parse, existing, sameHash, insert).Crashed?
  {
  }

  /** Every early exit leaves a message on the report and does not touch `completed`; only a
      successful upload marks the report completed. */
  lemma ExitsLeaveMessage(report: Reports.Report, ctx: Context, parse: ParseOutcome,
                          existing: Option<ExistingNetwork>, sameHash: bool, insert: InsertOutcome)
    requires forall a, b :: ctx.duplicate(a, b) != ""
    ensures var o := AsyncParser(report, ctx, parse, existing, sameHash, insert);
      && (o.EarlyExit? ==> Reports.HasText(o.report.message) && o.report.completed == report.completed)
      && (o.Uploaded? ==> o.report.completed == Some(true) && o.report.message == report.message)
  {
  }

  /** A fresh report that ends in an early exit is no longer running and has not failed. */
  lemma EarlyExitSettles(report: Reports.Report, ctx: Context, parse: ParseOutcome,
                         existing: Option<ExistingNetwork>, sameHash: bool, insert: InsertOutcome)
    requires forall a, b :: ctx.duplicate(a, b) != ""
    requires report.completed.None?
    ensures var o := AsyncParser(report, ctx, parse, existing, sameHash, insert);
      o.EarlyExit? ==> !Reports.Incomplete(o.report) && !Reports.Failed(o.report) && Reports.Settled(o.report)
  {
    ExitsLeaveMessage(report, ctx, parse, existing, sameHash, insert);
  }

  // ---------------------------------------------------------------- parse by URL

  /** The parse-by-URL task returns either a message or the new network's identifier. */
  datatype UrlResult = UrlMessage(text: string) | UrlNetwork(id: NetworkId)

  function ParseByUrl(fetched: Option<Graph>, insert: InsertOutcome): (r: UrlResult)
    ensures fetched.None? <==> r == UrlMessage("Parsing failed")
    ensures fetched.Some? && !insert.Inserted? <==> r == UrlMessage("Error parsing")
    ensures r.UrlNetwork? <==> fetched.Some? && insert.Inserted?
    ensures r.UrlNetwork? ==> r.id == insert.id
  {
    if fetched.None? then UrlMessage("Parsing failed")
    else if !insert.Inserted? then UrlMessage("Error parsing")
    else UrlNetwork(insert.id)
  }

  // ---------------------------------------------------------------- the analysis task

  /** The analysis task: score the omic's gene map and store the result. The scoring function
      is a parameter; the run time is never written. */
  function RunCmpa<V>(e: Experiments.Experiment<V>, score: map<string, V> -> seq<Experiments.Scored<V>>): (r: Experiments.Experiment<V>)
    ensures r.id == e.id && r.completed
    ensures r.result == Some(score(Experiments.SourceDict(e.omic.rows)))
    ensures r.(result := e.result, completed := e.completed) == e
  {
    Experiments.DumpResults(e, score(Experiments.SourceDict(e.omic.rows)))
  }
}
