/**
 * The custom identity provider of an SFTP transfer server (`lambda_handler` in
 * index.py). Given an authentication event it looks up the user's secret record,
 * checks the password or hands back the stored public key, and assembles the
 * response the transfer server uses to open a scoped session. Every failure is the
 * empty response.
 *
 * The two network calls (`get_secret` on the parameter store, `get_policy` on IAM)
 * are parameters: functions that return the fetched value or `None` on error.
 */
module CustomIdp {
  import opened Wrappers
  import opened JsonValues

  /** The incoming event: only the presence of `username` and `serverId` is checked. */
  datatype Event = Event(username: Option<string>, serverId: Option<string>, password: Option<string>)

  /** The user's secret record, already parsed from its JSON text. */
  type Record = map<string, Json>

  /** `get_secret`: the record stored under a key, or `None` when the store errs. */
  type SecretStore = string -> Option<Record>

  /** `get_policy`: the serialized default-version document of a policy, or `None` on error. */
  type PolicyStore = Json -> Option<string>

  /** A call made to one of the two stores, in the order the handler makes them. */
  datatype Fetch = SecretFetch(key: string) | PolicyFetch(arn: Json)

  const SecretPrefix: string := "/SFTP/"

  /** Every key the handler may put in its response. */
  const ResponseKeys: set<string> :=
    {"PublicKeys", "Role", "Policy", "HomeDirectoryDetails", "HomeDirectoryType", "HomeDirectory"}

  /** The parameter-store key of a user's secret: the fixed namespace, then the user name. */
  function SecretKey(username: string): (key: string)
    ensures |key| == |SecretPrefix| + |username|
    ensures key[..|SecretPrefix|] == SecretPrefix
    ensures key[|SecretPrefix|..] == username
  {
    SecretPrefix + username
  }

  /** The record the handler works from, or `None` when the event is malformed or the fetch fails. */
  function SecretOf(event: Event, getSecret: SecretStore): Option<Record>
  {
    if event.username.None? || event.serverId.None? then None
    else getSecret(SecretKey(event.username.value))
  }

  datatype Mode = PasswordMode(password: string) | PublicKeyMode

  /** A missing password counts as the empty one; the empty one selects public-key mode. */
  function ModeOf(password: Option<string>): Mode
  {
    var input := if password.Some? then password.value else "";
    if input != "" then PasswordMode(input) else PublicKeyMode
  }

  // ---------------------------------------------------------------------------
  // The decision, as a typed value, and its wire form
  // ---------------------------------------------------------------------------

  datatype PolicyField = NoPolicy | PolicyFetched(document: Option<string>)

  datatype Home = DefaultHome | FlatHome(directory: Json) | LogicalHome(details: Json)

  datatype Decision =
    | Denied
    | Granted(publicKey: Option<Json>, role: Json, policy: PolicyField, home: Home)

  function RoleOf(rec: Record): Json
  {
    if "Role" in rec then rec["Role"] else JStr("")
  }

  function PolicyOf(rec: Record, getPolicy: PolicyStore): PolicyField
  {
    if "Policy" in rec then PolicyFetched(getPolicy(rec["Policy"])) else NoPolicy
  }

  function HomeOf(rec: Record): Home
  {
    if "HomeDirectoryDetails" in rec then LogicalHome(rec["HomeDirectoryDetails"])
    else if "HomeDirectory" in rec then FlatHome(rec["HomeDirectory"])
    else DefaultHome
  }

  /** The authentication decision for one event, given what the two stores answer. */
  function Decide(event: Event, getSecret: SecretStore, getPolicy: PolicyStore): Decision
  {
    match SecretOf(event, getSecret)
    case None => Denied
    case Some(rec) =>
      match ModeOf(event.password)
      case PasswordMode(input) =>
        if "Password" in rec && rec["Password"] == JStr(input)
        then Granted(None, RoleOf(rec), PolicyOf(rec, getPolicy), HomeOf(rec))
        else Denied
      case PublicKeyMode =>
        if "PublicKey" in rec
        then Granted(Some(rec["PublicKey"]), RoleOf(rec), PolicyOf(rec, getPolicy), HomeOf(rec))
        else Denied
  }

  /** The `Policy` value: the document text, or JSON null when the IAM fetch failed. */
  function PolicyJson(document: Option<string>): Json
  {
    match document
    case Some(text) => JStr(text)
    case None => JNull
  }

  /** The response map the transfer server receives for a decision. */
  function Render(d: Decision): (m: map<string, Json>)
    ensures m == map[] <==> d.Denied?
    ensures m.Keys <= ResponseKeys
    ensures d.Granted? ==> "Role" in m && m["Role"] == d.role
    ensures "PublicKeys" in m <==> d.Granted? && d.publicKey.Some?
    ensures "PublicKeys" in m ==> m["PublicKeys"] == JArr([d.publicKey.value])
    ensures "Policy" in m <==> d.Granted? && d.policy.PolicyFetched?
    ensures "Policy" in m ==> m["Policy"] == PolicyJson(d.policy.document)
    ensures "HomeDirectoryDetails" in m <==> d.Granted? && d.home.LogicalHome?
    ensures "HomeDirectoryDetails" in m ==> m["HomeDirectoryDetails"] == d.home.details
    ensures "HomeDirectory" in m <==> d.Granted? && d.home.FlatHome?
    ensures "HomeDirectory" in m ==> m["HomeDirectory"] == d.home.directory
    ensures !("HomeDirectory" in m && "HomeDirectoryDetails" in m)
    ensures "HomeDirectoryType" in m <==> "HomeDirectoryDetails" in m
    ensures "HomeDirectoryType" in m ==> m["HomeDirectoryType"] == JStr("LOGICAL")
  {
    match d
    case Denied => map[]
    case Granted(publicKey, role, policy, home) =>
      var keys := if publicKey.Some? then map["PublicKeys" := JArr([publicKey.value])] else map[];
      var withRole := keys["Role" := role];
      var withPolicy :=
        if policy.PolicyFetched? then withRole["Policy" := PolicyJson(policy.document)] else withRole;
      match home
      case LogicalHome(details) =>
        withPolicy["HomeDirectoryDetails" := details]["HomeDirectoryType" := JStr("LOGICAL")]
      case FlatHome(directory) => withPolicy["HomeDirectory" := directory]
      case DefaultHome => withPolicy
  }

  /** The response for an event: the handler's specification. */
  function Response(event: Event, getSecret: SecretStore, getPolicy: PolicyStore): map<string, Json>
  {
    Render(Decide(event, getSecret, getPolicy))
  }

  // ---------------------------------------------------------------------------
  // The handler, building its response one key at a time
  // ---------------------------------------------------------------------------

  /**
   * `lambda_handler`: `resp` is the response, `calls` the store calls made, in order.
   * No store is called for a malformed event; otherwise the secret is fetched once,
   * and the policy at most once, after authentication has succeeded.
   */
  method LambdaHandler(event: Event, getSecret: SecretStore, getPolicy: PolicyStore)
    returns (resp: map<string, Json>, calls: seq<Fetch>)
    ensures resp == Response(event, getSecret, getPolicy)
    ensures event.username.None? || event.serverId.None? ==> calls == []
    ensures event.username.Some? && event.serverId.Some? ==>
              1 <= |calls| && calls[0] == SecretFetch(SecretPrefix + event.username.value)
    ensures |calls| <= 2
    ensures |calls| == 2 <==> "Policy" in resp
    ensures |calls| == 2 ==>
              SecretOf(event, getSecret).Some? && "Policy" in SecretOf(event, getSecret).value &&
              calls[1] == PolicyFetch(SecretOf(event, getSecret).value["Policy"])
  {
    resp := map[];
    calls := [];
    if event.username.None? || event.serverId.None? {
      return;
    }
    var username := event.username.value;
    var inputPassword := if event.password.Some? then event.password.value else "";

    var key := SecretKey(username);
    calls := calls + [SecretFetch(key)];
    var secret := getSecret(key);
    if secret.None? {
      return map[], calls;
    }
    var rec := secret.value;

    if inputPassword != "" {
      if "Password" !in rec {
        return map[], calls;
      }
      if rec["Password"] != JStr(inputPassword) {
        return map[], calls;
      }
    } else {
      if "PublicKey" in rec {
        resp := resp["PublicKeys" := JArr([rec["PublicKey"]])];
      } else {
        return map[], calls;
      }
    }

    if "Role" in rec {
      resp := resp["Role" := rec["Role"]];
    } else {
      resp := resp["Role" := JStr("")];
    }

    if "Policy" in rec {
      var policyArn := rec["Policy"];
      calls := calls + [PolicyFetch(policyArn)];
      resp := resp["Policy" := PolicyJson(getPolicy(policyArn))];
    }
    if "HomeDirectoryDetails" in rec {
      resp := resp["HomeDirectoryDetails" := rec["HomeDirectoryDetails"]];
      resp := resp["HomeDirectoryType" := JStr("LOGICAL")];
    } else if "HomeDirectory" in rec {
      resp := resp["HomeDirectory" := rec["HomeDirectory"]];
    }
  }
}
