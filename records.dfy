/** The record-list reply of the DNS provider and the choice of the
    configured subdomain's record in it (getSubdomain). */
module Records {
  import opened Options

  /** One provider record as the reply carries it; every property may be
      missing. */
  datatype DnsRecord = DnsRecord(name: Option<string>, content: Option<string>, recId: Option<string>)

  /** The object `{}` that selection starts from and returns when nothing
      is selected: it has no name, no content and no id. */
  const EmptyRecord: DnsRecord := DnsRecord(None, None, None)

  /** `response.recs` of the reply: the record array and its count. */
  datatype RecordList = RecordList(objs: Option<seq<DnsRecord>>, count: Option<int>)
  datatype ListResponse = ListResponse(recs: Option<RecordList>)
  /** The parsed body of a `rec_load_all` call. */
  datatype ListReply = ListReply(response: Option<ListResponse>)

  /** The guard in front of the scan: `response`, `recs`, `objs` and `count`
      are all present and `count` is positive (a count of 0 is falsy, so
      "truthy and > 0" is "> 0"). An empty `objs` array is truthy. */
  predicate WellShaped(reply: ListReply)
    ensures reply.response.None? ==> !WellShaped(reply)
    ensures reply.response.Some? && reply.response.value.recs.None? ==> !WellShaped(reply)
    ensures WellShaped(reply) ==> reply.response.value.recs.value.objs.Some?
    ensures WellShaped(reply) ==> reply.response.value.recs.value.count.Some? &&
                                  reply.response.value.recs.value.count.value >= 1
  {
    && reply.response.Some?
    && reply.response.value.recs.Some?
    && reply.response.value.recs.value.objs.Some?
    && reply.response.value.recs.value.count.Some?
    && reply.response.value.recs.value.count.value > 0
  }

  function Objs(reply: ListReply): seq<DnsRecord>
    requires WellShaped(reply)
  {
    reply.response.value.recs.value.objs.value
  }

  /** The result of the scan over `objs`: the last record named `sub`, or
      the empty record when none is. */
  function LastNamed(objs: seq<DnsRecord>, sub: string): (r: DnsRecord)
    ensures r != EmptyRecord <==> exists i :: 0 <= i < |objs| && objs[i].name == Some(sub)
    ensures r != EmptyRecord ==> r in objs && r.name == Some(sub)
  {
    if objs == [] then EmptyRecord
    else if objs[|objs| - 1].name == Some(sub) then objs[|objs| - 1]
    else LastNamed(objs[..|objs| - 1], sub)
  }

  /** No record after the selected one carries the subdomain's name. */
  lemma {:induction false} LastNamedIsLast(objs: seq<DnsRecord>, sub: string)
    requires LastNamed(objs, sub) != EmptyRecord
    ensures exists i :: 0 <= i < |objs| && objs[i] == LastNamed(objs, sub) &&
              forall j :: i < j < |objs| ==> objs[j].name != Some(sub)
  {
    var n := |objs|;
    if objs[n - 1].name != Some(sub) {
      var prefix := objs[..n - 1];
      LastNamedIsLast(prefix, sub);
      var i :| 0 <= i < |prefix| && prefix[i] == LastNamed(prefix, sub) &&
                forall j :: i < j < |prefix| ==> prefix[j].name != Some(sub);
      assert objs[i] == LastNamed(objs, sub);
      forall j | i < j < n
        ensures objs[j].name != Some(sub)
      {
        if j < n - 1 { assert objs[j] == prefix[j]; }
      }
    }
  }

  /** getSubdomain on an already parsed body: `reply` is None when the text
      is not valid JSON. */
  function Selected(reply: Option<ListReply>, sub: string): (r: DnsRecord)
    ensures (reply.None? || !WellShaped(reply.value)) ==> r == EmptyRecord
    ensures r != EmptyRecord ==> r.name == Some(sub)
  {
    if reply.Some? && WellShaped(reply.value) then LastNamed(Objs(reply.value), sub)
    else EmptyRecord
  }

  /** On a well-shaped reply, something is selected exactly when some
      record carries the subdomain's name, and then it is the last such
      record in the reply's order. */
  lemma SelectedIsLastMatch(reply: ListReply, sub: string)
    requires WellShaped(reply)
    ensures Selected(Some(reply), sub) != EmptyRecord <==>
              exists i :: 0 <= i < |Objs(reply)| && Objs(reply)[i].name == Some(sub)
    ensures Selected(Some(reply), sub) != EmptyRecord ==>
              exists i :: 0 <= i < |Objs(reply)| && Objs(reply)[i] == Selected(Some(reply), sub) &&
                forall j :: i < j < |Objs(reply)| ==> Objs(reply)[j].name != Some(sub)
  {
    if Selected(Some(reply), sub) != EmptyRecord {
      LastNamedIsLast(Objs(reply), sub);
    }
  }

  /** getSubdomain: parse the record text, check the reply's shape, then
      walk `objs` in order keeping every record whose name is `sub`; a text
      that does not parse yields the empty record rather than a fault. */
  method GetSubdomain(text: string, parse: string -> Option<ListReply>, sub: string)
    returns (result: DnsRecord)
    ensures result == Selected(parse(text), sub)
  {
    result := EmptyRecord;
    var obj := parse(text);
    if obj.None? {
      return;
    }
    if WellShaped(obj.value) {
      var items := Objs(obj.value);
      var i := 0;
      while i < |items|
        invariant 0 <= i <= |items|
        invariant result == LastNamed(items[..i], sub)
      {
        if items[i].name == Some(sub) {
          result := items[i];
        }
        assert items[..i + 1][..i] == items[..i];
        i := i + 1;
      }
      assert items[..|items|] == items;
    }
  }
}
