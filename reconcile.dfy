/** One reconciliation cycle (the cron callback) over the snapshot file,
    with every network, file and parser result given as input. */
module Reconcile {
  import opened Options
  import opened Address
  import opened Records
  import opened Cloudflare

  /** JSON.parse followed by reading the fields the cycle uses, for the two
      kinds of provider reply; None where parsing throws. */
  datatype Parsers = Parsers(list: string -> Option<ListReply>, edit: string -> Option<EditReply>)

  /** What the outside world answers during one cycle. A body is None when
      its HTTP call fails; a flag is false when that file operation fails. */
  datatype Env = Env(
    ipBody: Option<string>,        // getIp
    readOk: bool,                  // readFile of the snapshot
    listBody: Option<string>,      // rec_load_all in checkAvail
    listWriteOk: bool,             // writeFile after that fetch
    editBody: Option<string>,      // rec_edit
    refetchBody: Option<string>,   // rec_load_all after the edit
    refetchWriteOk: bool,          // writeFile inside that getDnsInfo
    finalWriteOk: bool)            // writeFile in the waterfall's last step

  /** The HTTP calls a cycle issues, in order. */
  datatype Call = IpGet(url: string) | ListGet(query: Params) | EditPost(form: Params)

  datatype Failure = IpUnavailable | EditRejected | RefreshFailed

  /** How a cycle ends. Stalled: checkAvail dropped its callback, so the
      cycle never reaches a decision. */
  datatype Outcome = Stalled | NoUpdate | Updated(from: Option<string>, to: string) | Failed(reason: Failure)

  /** getDnsInfo's result and the snapshot it leaves. */
  datatype Fetched = Fetched(body: Option<string>, snapshot: Option<string>)
  /** checkAvail's result, the snapshot it leaves and whether it fetched. */
  datatype Avail = Avail(text: Option<string>, snapshot: Option<string>, fetched: bool)
  datatype CycleResult = CycleResult(outcome: Outcome, snapshot: Option<string>, calls: seq<Call>)

  /** getDnsInfo: the fetched body is handed on only once it is stored in
      the snapshot; a failed fetch or write leaves the snapshot alone. */
  function FetchStep(snapshot: Option<string>, body: Option<string>, writeOk: bool): (r: Fetched)
    ensures r.body.Some? <==> body.Some? && writeOk
    ensures r.body.Some? ==> r.body == body && r.snapshot == body
    ensures r.body.None? ==> r.snapshot == snapshot
  {
    if body.Some? && writeOk then Fetched(body, body) else Fetched(None, snapshot)
  }

  /** checkAvail: a present snapshot is read and nothing is fetched; an
      absent one is filled by a fetch. Whatever text it yields is exactly
      what the snapshot then holds. */
  function AvailStep(snapshot: Option<string>, env: Env): (r: Avail)
    ensures r.fetched <==> snapshot.None?
    ensures snapshot.Some? ==> r.snapshot == snapshot && (r.text.Some? <==> env.readOk)
    ensures snapshot.None? ==> (r.text.Some? <==> env.listBody.Some? && env.listWriteOk)
    ensures r.text.Some? ==> r.text == r.snapshot
    ensures r.text.None? ==> r.snapshot == snapshot
    ensures snapshot.None? && r.text.Some? ==> r.text == env.listBody
  {
    if snapshot.Some? then Avail(if env.readOk then snapshot else None, snapshot, false)
    else
      var f := FetchStep(snapshot, env.listBody, env.listWriteOk);
      Avail(f.body, f.snapshot, true)
  }

  /** The record the cycle compares against: the selection from the text. */
  function Target(cfg: Config, p: Parsers, text: string): DnsRecord {
    Selected(p.list(text), cfg.subdomain)
  }

  /** One cycle. The address lookup and checkAvail run side by side: a
      failed lookup ends the cycle with an error, but checkAvail still runs
      and may fill the snapshot. Then: decide, edit, check the reply,
      refetch (which stores the snapshot) and store it once more. */
  function Cycle(snapshot: Option<string>, cfg: Config, p: Parsers, env: Env): (r: CycleResult)
    ensures |r.calls| >= 1 && r.calls[0] == IpGet(IpService(cfg))
    ensures r.outcome == Failed(IpUnavailable) <==> env.ipBody.None?
    ensures r.outcome == Stalled <==> env.ipBody.Some? && AvailStep(snapshot, env).text.None?
    ensures r.outcome.Updated? ==>
              && env.ipBody.Some?
              && r.outcome.to == StripNewlines(env.ipBody.value)
              && AvailStep(snapshot, env).text.Some?
              && r.outcome.from == Target(cfg, p, AvailStep(snapshot, env).text.value).content
              && r.outcome.from != Some(r.outcome.to)
              && r.snapshot == env.refetchBody
              && Accepted(env.editBody, p.edit)
  {
    var a := AvailStep(snapshot, env);
    var start := [IpGet(IpService(cfg))] + (if a.fetched then [ListGet(ListQuery(cfg))] else []);
    if env.ipBody.None? then CycleResult(Failed(IpUnavailable), a.snapshot, start)
    else if a.text.None? then CycleResult(Stalled, a.snapshot, start)
    else
      var addr := StripNewlines(env.ipBody.value);
      var dns := Target(cfg, p, a.text.value);
      if !NeedsUpdate(addr, dns) then CycleResult(NoUpdate, a.snapshot, start)
      else
        var edited := start + [EditPost(EditForm(cfg, Update(dns.recId, addr)))];
        if !Accepted(env.editBody, p.edit) then CycleResult(Failed(EditRejected), a.snapshot, edited)
        else
          var refetched := edited + [ListGet(ListQuery(cfg))];
          var f := FetchStep(a.snapshot, env.refetchBody, env.refetchWriteOk);
          if f.body.None? || !env.finalWriteOk then CycleResult(Failed(RefreshFailed), f.snapshot, refetched)
          else CycleResult(Updated(dns.content, addr), f.snapshot, refetched)
  }

  /** The updater: its configuration, the two parsers and the snapshot file
      it rewrites in place. */
  class Reconciler {
    const cfg: Config
    const parsers: Parsers
    var snapshot: Option<string>

    constructor (cfg: Config, parsers: Parsers, snapshot: Option<string>)
      ensures this.cfg == cfg && this.parsers == parsers && this.snapshot == snapshot
    {
      this.cfg := cfg;
      this.parsers := parsers;
      this.snapshot := snapshot;
    }

    /** getDnsInfo, given the fetch result and whether the write succeeds. */
    method GetDnsInfo(body: Option<string>, writeOk: bool) returns (got: Option<string>)
      modifies this
      ensures Fetched(got, snapshot) == FetchStep(old(snapshot), body, writeOk)
    {
      got := None;
      if body.Some? && writeOk {
        snapshot := body;
        got := body;
      }
    }

    /** checkAvail. */
    method CheckAvail(env: Env) returns (text: Option<string>, fetched: bool)
      modifies this
      ensures Avail(text, snapshot, fetched) == AvailStep(old(snapshot), env)
    {
      if snapshot.Some? {
        fetched := false;
        text := if env.readOk then snapshot else None;
      } else {
        fetched := true;
        text := GetDnsInfo(env.listBody, env.listWriteOk);
      }
    }

    /** The cron callback: one full cycle, returning its outcome and the
      HTTP calls it issued. */
    method RunCycle(env: Env) returns (outcome: Outcome, calls: seq<Call>)
      modifies this
      ensures CycleResult(outcome, snapshot, calls) == Cycle(old(snapshot), cfg, parsers, env)
    {
      calls := [IpGet(IpService(cfg))];
      var text, fetched := CheckAvail(env);
      if fetched {
        calls := calls + [ListGet(ListQuery(cfg))];
      }
      if env.ipBody.None? {
        outcome := Failed(IpUnavailable);
        return;
      }
      if text.None? {
        outcome := Stalled;
        return;
      }
      var addr := StripNewlines(env.ipBody.value);
      var dns := GetSubdomain(text.value, parsers.list, cfg.subdomain);
      if !NeedsUpdate(addr, dns) {
        outcome := NoUpdate;
        return;
      }
      calls := calls + [EditPost(EditForm(cfg, Update(dns.recId, addr)))];
      if !Accepted(env.editBody, parsers.edit) {
        outcome := Failed(EditRejected);
        return;
      }
      calls := calls + [ListGet(ListQuery(cfg))];
      var refreshed := GetDnsInfo(env.refetchBody, env.refetchWriteOk);
      if refreshed.None? || !env.finalWriteOk {
        outcome := Failed(RefreshFailed);
        return;
      }
      // the waterfall's last step stores the refetched body once more
      snapshot := refreshed;
      outcome := Updated(dns.content, addr);
    }
  }

  /** The forms of the edit calls among `calls`, in order. */
  function Edits(calls: seq<Call>): seq<Params> {
    if calls == [] then []
    else (if calls[0].EditPost? then [calls[0].form] else []) + Edits(calls[1..])
  }

  /** The number of record-list fetches among `calls`. */
  function ListFetches(calls: seq<Call>): nat {
    if calls == [] then 0
    else (if calls[0].ListGet? then 1 else 0) + ListFetches(calls[1..])
  }

  lemma {:induction false} CallsConcat(a: seq<Call>, b: seq<Call>)
    ensures Edits(a + b) == Edits(a) + Edits(b)
    ensures ListFetches(a + b) == ListFetches(a) + ListFetches(b)
  {
    if a != [] {
      assert (a + b)[0] == a[0];
      assert (a + b)[1..] == a[1..] + b;
      CallsConcat(a[1..], b);
    } else {
      assert a + b == b;
    }
  }

  /** The calls of the part of a cycle before the decision: the address
      lookup, then a record-list fetch exactly when there is no snapshot. */
  lemma StartCalls(snapshot: Option<string>, cfg: Config)
    ensures var start := [IpGet(IpService(cfg))] + (if snapshot.None? then [ListGet(ListQuery(cfg))] else []);
            Edits(start) == [] && ListFetches(start) == (if snapshot.None? then 1 else 0)
  {
    var q := [ListGet(ListQuery(cfg))];
    CallsConcat([IpGet(IpService(cfg))], q);
    assert Edits(q) == Edits(q[1..]);
    assert ListFetches(q) == 1 + ListFetches(q[1..]);
  }

  /** An edit is issued exactly when both the address and the record text
      are available and the address differs from the selected record's
      content; then it is the only edit, and it carries the selected
      record's id and the normalised address. */
  lemma EditIssuedIffDrift(snapshot: Option<string>, cfg: Config, p: Parsers, env: Env)
    ensures var a := AvailStep(snapshot, env);
            Edits(Cycle(snapshot, cfg, p, env).calls) ==
              if env.ipBody.Some? && a.text.Some? &&
                 NeedsUpdate(StripNewlines(env.ipBody.value), Target(cfg, p, a.text.value))
              then [EditForm(cfg, Update(Target(cfg, p, a.text.value).recId, StripNewlines(env.ipBody.value)))]
              else []
  {
    var a := AvailStep(snapshot, env);
    var start := [IpGet(IpService(cfg))] + (if a.fetched then [ListGet(ListQuery(cfg))] else []);
    StartCalls(snapshot, cfg);
    if env.ipBody.Some? && a.text.Some? {
      var addr := StripNewlines(env.ipBody.value);
      var dns := Target(cfg, p, a.text.value);
      var e := [EditPost(EditForm(cfg, Update(dns.recId, addr)))];
      var l := [ListGet(ListQuery(cfg))];
      CallsConcat(start, e);
      CallsConcat(start + e, l);
      assert Edits(e) == [EditForm(cfg, Update(dns.recId, addr))] + Edits(e[1..]);
      assert Edits(l) == Edits(l[1..]);
    }
  }

  /** The record list is fetched once when there is no snapshot and once
      more after an edit that was sent and accepted, and at no other time:
      with a snapshot and no accepted edit, nothing is fetched. */
  lemma ListFetchedOnlyWhenNeeded(snapshot: Option<string>, cfg: Config, p: Parsers, env: Env)
    ensures var r := Cycle(snapshot, cfg, p, env);
            ListFetches(r.calls) ==
              (if snapshot.None? then 1 else 0) +
              (if r.outcome.Updated? || r.outcome == Failed(RefreshFailed) then 1 else 0)
    ensures var r := Cycle(snapshot, cfg, p, env);
            r.outcome.Updated? || r.outcome == Failed(RefreshFailed) ==>
              |Edits(r.calls)| == 1 && Accepted(env.editBody, p.edit)
  {
    EditIssuedIffDrift(snapshot, cfg, p, env);
    var a := AvailStep(snapshot, env);
    var start := [IpGet(IpService(cfg))] + (if a.fetched then [ListGet(ListQuery(cfg))] else []);
    StartCalls(snapshot, cfg);
    if env.ipBody.Some? && a.text.Some? {
      var addr := StripNewlines(env.ipBody.value);
      var dns := Target(cfg, p, a.text.value);
      var e := [EditPost(EditForm(cfg, Update(dns.recId, addr)))];
      var l := [ListGet(ListQuery(cfg))];
      CallsConcat(start, e);
      CallsConcat(start + e, l);
      assert ListFetches(e) == ListFetches(e[1..]);
      assert ListFetches(l) == 1 + ListFetches(l[1..]);
    }
  }

  /** The snapshot is replaced after checkAvail only when an edit was sent
      and the provider accepted it, and then by the refetched record list.
      Every other ending leaves the snapshot as checkAvail left it. */
  lemma SnapshotReplacedOnlyAfterAcceptedEdit(snapshot: Option<string>, cfg: Config, p: Parsers, env: Env)
    ensures var r := Cycle(snapshot, cfg, p, env);
            r.snapshot != AvailStep(snapshot, env).snapshot ==>
              |Edits(r.calls)| == 1 && Accepted(env.editBody, p.edit) &&
              r.snapshot == env.refetchBody && env.refetchBody.Some?
    ensures var r := Cycle(snapshot, cfg, p, env);
            (r.outcome.Updated? ==>
               |Edits(r.calls)| == 1 && Accepted(env.editBody, p.edit) &&
               r.snapshot == env.refetchBody && env.refetchBody.Some?) &&
            (r.outcome in {Stalled, NoUpdate, Failed(IpUnavailable), Failed(EditRejected)} ==>
               r.snapshot == AvailStep(snapshot, env).snapshot)
  {
    EditIssuedIffDrift(snapshot, cfg, p, env);
  }

  /** Whenever the address and the record text are both available, whether
      the snapshot existed or was just fetched, the cycle finds nothing to do
      exactly when the selected record's content equals the address; it then
      sends no edit and leaves the snapshot as checkAvail left it. */
  lemma NoUpdateIffInSync(snapshot: Option<string>, cfg: Config, p: Parsers, env: Env)
    requires env.ipBody.Some? && AvailStep(snapshot, env).text.Some?
    ensures var a := AvailStep(snapshot, env);
            var r := Cycle(snapshot, cfg, p, env);
            var addr := StripNewlines(env.ipBody.value);
            (r.outcome == NoUpdate <==> Target(cfg, p, a.text.value).content == Some(addr)) &&
            (r.outcome == NoUpdate ==> r.snapshot == a.snapshot && Edits(r.calls) == [])
  {
    EditIssuedIffDrift(snapshot, cfg, p, env);
  }

  /** With a readable snapshot the cycle finds nothing to do exactly when
      the selected content equals the address; it then issues only the
      address lookup and keeps the snapshot. */
  lemma SnapshotUsedWhenPresent(s: string, cfg: Config, p: Parsers, env: Env)
    requires env.readOk && env.ipBody.Some?
    ensures var r := Cycle(Some(s), cfg, p, env);
            var addr := StripNewlines(env.ipBody.value);
            (r.outcome == NoUpdate <==> Target(cfg, p, s).content == Some(addr)) &&
            (r.outcome == NoUpdate ==> r.calls == [IpGet(IpService(cfg))] && r.snapshot == Some(s))
  {
  }

  /** Running a cycle again after one that found nothing to do, with the
      same address and provider, again finds nothing to do, keeps the
      snapshot, and issues only the address lookup. */
  lemma NoUpdateIsStable(snapshot: Option<string>, cfg: Config, p: Parsers, env: Env)
    requires Cycle(snapshot, cfg, p, env).outcome == NoUpdate
    requires env.readOk
    ensures var r := Cycle(snapshot, cfg, p, env);
            Cycle(r.snapshot, cfg, p, env) == CycleResult(NoUpdate, r.snapshot, [IpGet(IpService(cfg))])
  {
    var a := AvailStep(snapshot, env);
    assert a.text.Some? && a.snapshot == a.text;
  }

  /** After an update whose refetched list shows the new address on the
      selected record, the next cycle with the same address finds nothing
      to do and issues only the address lookup. */
  lemma QuietAfterUpdate(snapshot: Option<string>, cfg: Config, p: Parsers, env: Env, next: Env)
    requires Cycle(snapshot, cfg, p, env).outcome.Updated?
    requires env.refetchBody.Some? &&
             Target(cfg, p, env.refetchBody.value).content == Some(Cycle(snapshot, cfg, p, env).outcome.to)
    requires next.readOk && next.ipBody.Some? &&
             StripNewlines(next.ipBody.value) == Cycle(snapshot, cfg, p, env).outcome.to
    ensures var r := Cycle(snapshot, cfg, p, env);
            Cycle(r.snapshot, cfg, p, next) == CycleResult(NoUpdate, r.snapshot, [IpGet(IpService(cfg))])
  {
    SnapshotReplacedOnlyAfterAcceptedEdit(snapshot, cfg, p, env);
  }

  /** A snapshot from which nothing can be selected (it does not parse, has
      the wrong shape or lacks the subdomain) makes every cycle send an edit
      without an id; as long as the provider rejects it, the snapshot is
      never replaced, so the next cycle sees the same text again. */
  lemma UnusableSnapshotPersists(s: string, cfg: Config, p: Parsers, env: Env)
    requires Target(cfg, p, s) == EmptyRecord
    requires env.readOk && env.ipBody.Some?
    ensures var r := Cycle(Some(s), cfg, p, env);
            |Edits(r.calls)| == 1 && "id" !in Edits(r.calls)[0] &&
            (!Accepted(env.editBody, p.edit) ==> r.snapshot == Some(s) && r.outcome == Failed(EditRejected))
  {
    EditIssuedIffDrift(Some(s), cfg, p, env);
  }

  /** A failed address lookup ends the cycle with an error and no edit,
      but the concurrent checkAvail has still run: an absent snapshot is
      fetched and, when the write succeeds, filled. */
  lemma IpFailureAbortsButFillsSnapshot(snapshot: Option<string>, cfg: Config, p: Parsers, env: Env)
    requires env.ipBody.None?
    ensures var r := Cycle(snapshot, cfg, p, env);
            r.outcome == Failed(IpUnavailable) && Edits(r.calls) == [] &&
            ListFetches(r.calls) == (if snapshot.None? then 1 else 0) &&
            r.snapshot == (if snapshot.None? && env.listBody.Some? && env.listWriteOk then env.listBody else snapshot)
  {
    StartCalls(snapshot, cfg);
  }

  /** Once an edit is sent, its reply decides the rest: a rejected edit
      ends the cycle with the snapshot as checkAvail left it; an accepted
      one is always followed by the refetch, which replaces the snapshot
      when it and its write succeed, and the cycle ends `Updated` exactly
      when the last write succeeds too. */
  lemma EditOutcome(snapshot: Option<string>, cfg: Config, p: Parsers, env: Env)
    requires env.ipBody.Some? && AvailStep(snapshot, env).text.Some?
    requires NeedsUpdate(StripNewlines(env.ipBody.value), Target(cfg, p, AvailStep(snapshot, env).text.value))
    ensures var a := AvailStep(snapshot, env);
            var addr := StripNewlines(env.ipBody.value);
            var dns := Target(cfg, p, a.text.value);
            var start := [IpGet(IpService(cfg))] + (if snapshot.None? then [ListGet(ListQuery(cfg))] else []);
            var edited := start + [EditPost(EditForm(cfg, Update(dns.recId, addr)))];
            var r := Cycle(snapshot, cfg, p, env);
            && (!Accepted(env.editBody, p.edit) ==>
                  r == CycleResult(Failed(EditRejected), a.snapshot, edited))
            && (Accepted(env.editBody, p.edit) ==>
                  && r.calls == edited + [ListGet(ListQuery(cfg))]
                  && r.snapshot == (if env.refetchBody.Some? && env.refetchWriteOk then env.refetchBody else a.snapshot)
                  && r.outcome == (if env.refetchBody.Some? && env.refetchWriteOk && env.finalWriteOk
                                   then Updated(dns.content, addr) else Failed(RefreshFailed)))
  {
  }
}
