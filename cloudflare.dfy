/** Configuration, the provider calls' parameters, the update decision and
    the check of the provider's edit reply. */
module Cloudflare {
  import opened Options
  import opened Records

  /** Address service used when the configuration names none. */
  const DefaultIpService: string := "http://ifconfig.me/ip"

  /** The `cloudflare` part of the configuration and the optional `getIp`
      service address. */
  datatype Config = Config(getIp: Option<string>, email: string, apikey: string, domain: string, subdomain: string)

  /** The configured address service when it is set and non-empty
      (truthy), the default service otherwise. */
  function IpService(cfg: Config): (url: string)
    ensures url != ""
    ensures url == DefaultIpService || Some(url) == cfg.getIp
    ensures cfg.getIp.Some? && cfg.getIp.value != "" ==> url == cfg.getIp.value
  {
    if cfg.getIp.Some? && cfg.getIp.value != "" then cfg.getIp.value else DefaultIpService
  }

  /** Query-string or form parameters of a provider call. */
  type Params = map<string, string>

  /** The `rec_load_all` query of getDnsInfo: exactly the operation, the
      token, the account email and the zone. */
  function ListQuery(cfg: Config): (q: Params)
    ensures q.Keys == {"a", "tkn", "email", "z"}
    ensures q["a"] == "rec_load_all"
    ensures q["tkn"] == cfg.apikey && q["email"] == cfg.email && q["z"] == cfg.domain
  {
    map["a" := "rec_load_all", "tkn" := cfg.apikey, "email" := cfg.email, "z" := cfg.domain]
  }

  /** What the cycle asks the provider to change: the record id (possibly
      missing) and the new address. */
  datatype Update = Update(id: Option<string>, content: string)

  /** The `rec_edit` form of updateDnsInfo. A missing id is an `undefined`
      property, which the form encoder leaves out, so the form then has no
      `id` key at all. */
  function EditForm(cfg: Config, u: Update): (f: Params)
    ensures f.Keys == {"a", "tkn", "email", "z", "type", "name", "content", "service_mode", "ttl"}
                      + (if u.id.Some? then {"id"} else {})
    ensures "id" in f <==> u.id.Some?
    ensures "id" in f ==> Some(f["id"]) == u.id
    ensures f["content"] == u.content
    ensures f["a"] == "rec_edit" && f["type"] == "A" && f["service_mode"] == "0" && f["ttl"] == "1"
    ensures f["name"] == cfg.subdomain
    ensures f["tkn"] == cfg.apikey && f["email"] == cfg.email && f["z"] == cfg.domain
  {
    var fixed := map["a" := "rec_edit", "tkn" := cfg.apikey, "email" := cfg.email, "z" := cfg.domain,
                     "type" := "A", "name" := cfg.subdomain, "content" := u.content,
                     "service_mode" := "0", "ttl" := "1"];
    if u.id.Some? then fixed["id" := u.id.value] else fixed
  }

  /** `addr !== dns.content`: a record without content never equals the
      address, so the empty selection always asks for an update. */
  predicate NeedsUpdate(addr: string, dns: DnsRecord)
    ensures dns == EmptyRecord ==> NeedsUpdate(addr, dns)
    ensures !NeedsUpdate(addr, dns) ==> dns.content == Some(addr)
  {
    dns.content != Some(addr)
  }

  /** The parsed body of a `rec_edit` call: only its `result` is read. */
  datatype EditReply = EditReply(result: Option<string>)

  const SuccessResult: string := "success"

  /** The edit reply counts as success only when a body arrived, it parses
      and its `result` is "success"; a transport error leaves no body, and a
      body whose parse throws also counts as failure. */
  predicate Accepted(body: Option<string>, parse: string -> Option<EditReply>)
    ensures body.None? ==> !Accepted(body, parse)
    ensures body.Some? && parse(body.value).None? ==> !Accepted(body, parse)
    ensures Accepted(body, parse) ==> parse(body.value).value.result == Some(SuccessResult)
  {
    && body.Some?
    && parse(body.value).Some?
    && parse(body.value).value.result == Some(SuccessResult)
  }
}
