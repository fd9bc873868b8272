/**
 * What the handler promises about its response, stated over `CustomIdp.Response`
 * (which `CustomIdp.LambdaHandler` is proved to compute).
 */
module IdpProperties {
  import opened Wrappers
  import opened JsonValues
  import opened CustomIdp

  /** A malformed event (no `username` or no `serverId`) and a failed secret fetch are denied. */
  lemma NoRecordDenied(event: Event, getSecret: SecretStore, getPolicy: PolicyStore)
    requires event.username.None? || event.serverId.None? ||
             getSecret(SecretPrefix + event.username.value).None?
    ensures Response(event, getSecret, getPolicy) == map[]
  {
  }

  /** Password mode: granted exactly when the record's `Password` equals the input, and never with `PublicKeys`. */
  lemma PasswordModeOutcome(event: Event, getSecret: SecretStore, getPolicy: PolicyStore, rec: Record)
    requires SecretOf(event, getSecret) == Some(rec)
    requires event.password.Some? && event.password.value != ""
    ensures var m := Response(event, getSecret, getPolicy);
            (m != map[] <==> "Password" in rec && rec["Password"] == JStr(event.password.value)) &&
            "PublicKeys" !in m
  {
  }

  /** Public-key mode: granted exactly when the record has a `PublicKey`, returned as a one-element list. */
  lemma PublicKeyModeOutcome(event: Event, getSecret: SecretStore, getPolicy: PolicyStore, rec: Record)
    requires SecretOf(event, getSecret) == Some(rec)
    requires event.password.None? || event.password.value == ""
    ensures var m := Response(event, getSecret, getPolicy);
            (m != map[] <==> "PublicKey" in rec) &&
            (m != map[] ==> "PublicKeys" in m && m["PublicKeys"] == JArr([rec["PublicKey"]]))
  {
  }

  /**
   * Some non-empty password authenticates against a record exactly when the record
   * holds a non-empty string `Password`; a stored empty or non-string password can
   * never be used.
   */
  lemma PasswordLoginPossible(username: string, serverId: string, getSecret: SecretStore,
                              getPolicy: PolicyStore, rec: Record)
    requires getSecret(SecretPrefix + username) == Some(rec)
    ensures (exists input: string :: input != "" &&
               Response(Event(Some(username), Some(serverId), Some(input)), getSecret, getPolicy) != map[])
            <==> ("Password" in rec && rec["Password"].JStr? && rec["Password"].s != "")
  {
    if "Password" in rec && rec["Password"].JStr? && rec["Password"].s != "" {
      var input := rec["Password"].s;
      PasswordModeOutcome(Event(Some(username), Some(serverId), Some(input)), getSecret, getPolicy, rec);
    }
    if exists input: string :: input != "" &&
         Response(Event(Some(username), Some(serverId), Some(input)), getSecret, getPolicy) != map[] {
      var input: string :| input != "" &&
        Response(Event(Some(username), Some(serverId), Some(input)), getSecret, getPolicy) != map[];
      PasswordModeOutcome(Event(Some(username), Some(serverId), Some(input)), getSecret, getPolicy, rec);
    }
  }

  /** A granted response always carries `Role`: the record's, or the empty string. */
  lemma RoleAlwaysSet(event: Event, getSecret: SecretStore, getPolicy: PolicyStore, rec: Record)
    requires SecretOf(event, getSecret) == Some(rec)
    requires Response(event, getSecret, getPolicy) != map[]
    ensures var m := Response(event, getSecret, getPolicy);
            "Role" in m && m["Role"] == (if "Role" in rec then rec["Role"] else JStr(""))
  {
  }

  /**
   * `Policy` appears in a granted response exactly when the record names one, holding
   * what the one fetch returned (JSON null when it failed).
   */
  lemma PolicyAttached(event: Event, getSecret: SecretStore, getPolicy: PolicyStore, rec: Record)
    requires SecretOf(event, getSecret) == Some(rec)
    requires Response(event, getSecret, getPolicy) != map[]
    ensures var m := Response(event, getSecret, getPolicy);
            ("Policy" in m <==> "Policy" in rec) &&
            ("Policy" in rec ==> m["Policy"] == PolicyJson(getPolicy(rec["Policy"])))
  {
  }

  /** The policy store cannot turn a grant into a denial, nor the reverse. */
  lemma PolicyFetchNeverDenies(event: Event, getSecret: SecretStore, getPolicy: PolicyStore,
                               otherPolicy: PolicyStore)
    ensures (Response(event, getSecret, getPolicy) == map[]) <==>
            (Response(event, getSecret, otherPolicy) == map[])
  {
  }

  /** `HomeDirectoryDetails` (with type LOGICAL) wins over `HomeDirectory`; neither gives no home keys. */
  lemma HomeDirectoryPrecedence(event: Event, getSecret: SecretStore, getPolicy: PolicyStore, rec: Record)
    requires SecretOf(event, getSecret) == Some(rec)
    requires Response(event, getSecret, getPolicy) != map[]
    ensures var m := Response(event, getSecret, getPolicy);
            if "HomeDirectoryDetails" in rec then
              "HomeDirectoryDetails" in m && m["HomeDirectoryDetails"] == rec["HomeDirectoryDetails"] &&
              "HomeDirectoryType" in m && m["HomeDirectoryType"] == JStr("LOGICAL") &&
              "HomeDirectory" !in m
            else if "HomeDirectory" in rec then
              "HomeDirectory" in m && m["HomeDirectory"] == rec["HomeDirectory"] &&
              "HomeDirectoryDetails" !in m && "HomeDirectoryType" !in m
            else
              "HomeDirectory" !in m && "HomeDirectoryDetails" !in m && "HomeDirectoryType" !in m
  {
  }

  /**
   * The response encodes the decision without loss: two decisions with the same
   * response are the same decision, so every denial is the one empty map.
   */
  lemma RenderInjective(d1: Decision, d2: Decision)
    requires Render(d1) == Render(d2)
    ensures d1 == d2
  {
  }

  // ---------------------------------------------------------------------------
  // The scenario of the repository's test, with the stores as the mocks set them up
  // ---------------------------------------------------------------------------

  const TestRole: string := "arn:aws:iam::095948426039:role/sftp-awsgalen-com-TransferFamilyScopeDownRole"
  const TestPolicyArn: string := "arn:aws:iam::123456789012:policy/DefaultTransferFamilyScopeDownManagedPolicy"
  const TestHome: string := "/sftp.awsgalen.com/gdunkle"
  /** A shortened stand-in for the test record's SSH key; password mode never returns it. */
  const TestKey: string := "ssh-rsa AAAAB3NzaC1yc2E awsgalen"

  /** The secret record stored under `/SFTP/gdunkle`. */
  function TestRecord(): Record
  {
    map["PublicKey" := JStr(TestKey), "HomeDirectory" := JStr(TestHome), "Role" := JStr(TestRole),
        "Password" := JStr("password"), "Policy" := JStr(TestPolicyArn)]
  }

  /** The right password yields Role, the fetched Policy document and HomeDirectory, and no PublicKeys. */
  lemma PasswordLoginScenario(getSecret: SecretStore, getPolicy: PolicyStore, document: string)
    requires getSecret("/SFTP/gdunkle") == Some(TestRecord())
    requires getPolicy(JStr(TestPolicyArn)) == Some(document)
    ensures Response(Event(Some("gdunkle"), Some("s-daa2e56d108d45cfa"), Some("password")), getSecret, getPolicy)
            == map["Role" := JStr(TestRole), "Policy" := JStr(document), "HomeDirectory" := JStr(TestHome)]
  {
    assert SecretPrefix + "gdunkle" == "/SFTP/gdunkle";
  }

  /** The same user with a wrong password gets the empty response. */
  lemma WrongPasswordScenario(getSecret: SecretStore, getPolicy: PolicyStore)
    requires getSecret("/SFTP/gdunkle") == Some(TestRecord())
    ensures Response(Event(Some("gdunkle"), Some("s-daa2e56d108d45cfa"), Some("wrong")), getSecret, getPolicy)
            == map[]
  {
    assert SecretPrefix + "gdunkle" == "/SFTP/gdunkle";
  }

  /** An empty password against a record holding only a public key: that key and the default Role. */
  lemma PublicKeyScenario(getSecret: SecretStore, getPolicy: PolicyStore)
    requires getSecret("/SFTP/gdunkle") == Some(map["PublicKey" := JStr(TestKey)])
    ensures Response(Event(Some("gdunkle"), Some("s-daa2e56d108d45cfa"), Some("")), getSecret, getPolicy)
            == map["Role" := JStr(""), "PublicKeys" := JArr([JStr(TestKey)])]
  {
    assert SecretPrefix + "gdunkle" == "/SFTP/gdunkle";
  }
}
