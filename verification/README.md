# Custom identity provider for an SFTP transfer server, in Dafny

This project models `lambda_handler`, the custom identity provider that an SFTP
transfer server calls on every login. The handler receives an event with
`username`, `serverId` and an optional `password`. It reads the user's secret
record from the parameter store under `/SFTP/<username>`. A non-empty password
selects password mode: the record's `Password` must equal it exactly. An absent or
empty password selects public-key mode: the record must hold a `PublicKey`, which
is handed back to the server in `PublicKeys`. On success the handler adds `Role`
(empty string when the record has none), `Policy` (the IAM policy document the
record names) and the home directory, where `HomeDirectoryDetails` (marked
`HomeDirectoryType = LOGICAL`) wins over `HomeDirectory`. Every failure gives the
empty response `{}`.

Files:

- `wrappers.dfy`: `Option`.
- `json.dfy`: parsed JSON values; the record is a JSON object (`map<string, Json>`).
- `custom_idp.dfy`, module `CustomIdp`: the event, the record and the two stores
  (`get_secret` and `get_policy` are function parameters returning `Some` value or
  `None` on error); the decision as a typed value (`Decide`: `Denied` or
  `Granted` with public key, role, policy and home directory); its wire form
  (`Render`); and `LambdaHandler`, a method that builds the response one key at a
  time with early exits, as the Python does, and also returns the list of store
  calls it made.
- `properties.dfy`, module `IdpProperties`: the handler's promises, stated over
  `Response = Render(Decide(..))`, and the scenario of the repository's test.

A failed policy fetch still sets `Policy`, to `None` (JSON null); the key is kept
(index.py:77, index.py:109), and the model does the same. `get_policy` returns the
document serialized as text, so a fetched `Policy` is a JSON string. The repository's
test writes its expected `Policy` as a structured object; the model follows the
handler.

`CustomIdp.ModeOf` (the mode choice, index.py:32-36 and index.py:47) and
`CustomIdp.Decide` (the decision, index.py:24-86) carry no contract of their own:
they are the specification that `LambdaHandler` is proved against and that the
`IdpProperties` lemmas below characterize, rule by rule.

## Model

| member | source | states |
|---|---|---|
| CustomIdp.SecretKey | source/aws-transfer-custom-idp-ssm-parameter-store-apig/aws_transfer_custom_idp_ssm_parameter_store_apig/index.py:39 | the lookup key is the `/SFTP/` namespace followed by exactly the user name, so the name can be read back from the key and distinct users never share a lookup key |
| CustomIdp.Render | source/aws-transfer-custom-idp-ssm-parameter-store-apig/aws_transfer_custom_idp_ssm_parameter_store_apig/index.py:59-86 | the response is `{}` exactly for a denial; its keys are drawn from PublicKeys, Role, Policy, HomeDirectoryDetails, HomeDirectoryType, HomeDirectory; a grant always has Role; PublicKeys is the one-element list of the key; Policy holds the fetch result (null on failure); HomeDirectoryType is LOGICAL and present exactly with HomeDirectoryDetails; HomeDirectory and HomeDirectoryDetails never appear together |
| CustomIdp.LambdaHandler | source/aws-transfer-custom-idp-ssm-parameter-store-apig/aws_transfer_custom_idp_ssm_parameter_store_apig/index.py:21-89 | the step-by-step assembly equals the specified response; a malformed event calls no store; otherwise the first call is the secret fetch of `/SFTP/` + username; at most two calls; the second, a policy fetch of the record's Policy identifier, happens exactly when the response has Policy |
| IdpProperties.NoRecordDenied | source/aws-transfer-custom-idp-ssm-parameter-store-apig/aws_transfer_custom_idp_ssm_parameter_store_apig/index.py:24-45 | a missing username or serverId (presence only), or a failed secret fetch, yields `{}` |
| IdpProperties.PasswordModeOutcome | source/aws-transfer-custom-idp-ssm-parameter-store-apig/aws_transfer_custom_idp_ssm_parameter_store_apig/index.py:47-56 | with a present non-empty password, the response is non-empty iff the record has Password equal to the input, and it never contains PublicKeys even when the record holds a PublicKey |
| IdpProperties.PublicKeyModeOutcome | source/aws-transfer-custom-idp-ssm-parameter-store-apig/aws_transfer_custom_idp_ssm_parameter_store_apig/index.py:57-63 | with an absent or empty password, the response is non-empty iff the record has PublicKey, and then PublicKeys is `[PublicKey]` |
| IdpProperties.PasswordLoginPossible | source/aws-transfer-custom-idp-ssm-parameter-store-apig/aws_transfer_custom_idp_ssm_parameter_store_apig/index.py:32-56 | some non-empty password logs a user in iff the record stores a non-empty string Password; an empty or non-string stored password can never be used |
| IdpProperties.RoleAlwaysSet | source/aws-transfer-custom-idp-ssm-parameter-store-apig/aws_transfer_custom_idp_ssm_parameter_store_apig/index.py:68-72 | every granted response holds Role, the record's Role or `""` |
| IdpProperties.PolicyAttached | source/aws-transfer-custom-idp-ssm-parameter-store-apig/aws_transfer_custom_idp_ssm_parameter_store_apig/index.py:75-77 | in a granted response Policy is present iff the record has Policy, and holds what the fetch of that identifier returned, null on error |
| IdpProperties.PolicyFetchNeverDenies | source/aws-transfer-custom-idp-ssm-parameter-store-apig/aws_transfer_custom_idp_ssm_parameter_store_apig/index.py:101-109 | the answer of the policy store never changes whether the response is empty |
| IdpProperties.HomeDirectoryPrecedence | source/aws-transfer-custom-idp-ssm-parameter-store-apig/aws_transfer_custom_idp_ssm_parameter_store_apig/index.py:78-86 | HomeDirectoryDetails is copied with HomeDirectoryType LOGICAL and no HomeDirectory; else HomeDirectory is copied alone; else none of the three keys |
| IdpProperties.RenderInjective | source/aws-transfer-custom-idp-ssm-parameter-store-apig/aws_transfer_custom_idp_ssm_parameter_store_apig/index.py:22-89 | the response determines the decision: all denials are the one empty map and no two different grants look the same |
| IdpProperties.PasswordLoginScenario | tests/test_lambda_handler.py:34-55 | user gdunkle with password `password` and the test's record gets exactly Role, the fetched Policy document and HomeDirectory |
| IdpProperties.WrongPasswordScenario | source/aws-transfer-custom-idp-ssm-parameter-store-apig/aws_transfer_custom_idp_ssm_parameter_store_apig/index.py:54-56 | the same user with a wrong password gets `{}` |
| IdpProperties.PublicKeyScenario | source/aws-transfer-custom-idp-ssm-parameter-store-apig/aws_transfer_custom_idp_ssm_parameter_store_apig/index.py:57-72 | an empty password against a record holding only a PublicKey gets exactly PublicKeys `[key]` and Role `""` |

## Left out

- Module-level setup (environment variables, boto3 session and clients, retry configuration, index.py:8-18): cloud plumbing with no decision logic.
- Internals of `get_secret` and `get_policy` (the SSM and IAM calls, the default-version lookup, `ClientError` handling): modelled only as their results, a value or `None`.
- `json.loads` of the secret and `json.dumps` of the policy document: the record is taken as an already parsed JSON object and the document as its serialized text. Malformed JSON raises an uncaught exception. A secret that parses to something other than an object behaves by its type: a list or string that does not contain the key being tested makes `'Password' in ...` (index.py:48) or `'PublicKey' in ...` (index.py:59) false, so the handler returns `{}`; a list or string that does contain it raises at the subscript (index.py:49 or index.py:60); a number, boolean or null raises at the `in` test itself. The secret store here returns an object or `None`, so none of these paths is modelled.
- A policy identifier of a type the IAM client rejects raises a validation error that `get_policy` does not catch; the model passes the identifier to the policy store as a JSON value and takes its answer.
- JSON numbers are integers here; fractional numbers only pass through the record and cannot equal a password, so nothing depends on them.
- An event whose `password` is present but not a string (JSON null) is not modelled: the event's password is an optional string.
- The order of keys in the Python dict (insertion order, visible in `json.dumps`) is not modelled: the response is a Dafny map.
- `print`, `logging` and `init_logger` (index.py:112-124): logging only. `serverId` is not compared with anything by the handler, so only its presence is modelled.
