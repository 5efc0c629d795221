/**
 * Create-or-update of the Secret `<service>-secrets` (update_env.py, lines
 * 41 and 56-75).
 *
 * The Kubernetes calls are not made here: their responses are inputs, and the
 * outcome says which write the script ends up sending.  The read and the
 * replace share one try block, so a 404 from either leads to the create path;
 * any other API error, and any error of the create call, propagates.
 */
module SecretUpsert {
  import opened Wrappers
  import opened Dicts

  const NotFound := 404

  /** A Kubernetes API response: a value, or an ApiException with its HTTP status. */
  datatype ApiResult<T> = Ok(value: T) | ApiError(status: int)

  /** The responses the cluster gives to the three secret calls, in the order the script makes them. */
  datatype SecretApi = SecretApi(
    read: ApiResult<map<string, string>>,  // read_namespaced_secret: the existing secret's data
    replace: ApiResult<()>,                // replace_namespaced_secret
    create: ApiResult<()>)                 // create_namespaced_secret

  datatype Secret = Secret(apiVersion: string, kind: string, name: string, namespace: string,
                           secretType: string, data: map<string, string>)

  datatype SecretOutcome =
    | Skipped                                        // empty payload: no call at all
    | Replaced(name: string, data: map<string, string>)
    | Created(secret: Secret)
    | Failed(status: int)                            // the ApiException that escapes

  function SecretName(service: string): string {
    service + "-secrets"
  }

  /** The Secret built on the create path. */
  function NewSecret(service: string, namespace: string, payload: Dict<string>): (s: Secret)
    ensures s.name == service + "-secrets" && s.namespace == namespace
    ensures s.apiVersion == "v1" && s.kind == "Secret" && s.secretType == "Opaque"
    ensures forall k :: k in s.data <==> k in Keys(payload)
    ensures forall k :: k in s.data ==> Get(payload, k) == Some(s.data[k])
  {
    Secret("v1", "Secret", SecretName(service), namespace, "Opaque", ToMap(payload))
  }

  /** The except branch: create on 404, re-raise otherwise. */
  function OnApiError(service: string, namespace: string, payload: Dict<string>, status: int,
                      create: ApiResult<()>): SecretOutcome
  {
    if status != NotFound then Failed(status)
    else match create
      case Ok(_) => Created(NewSecret(service, namespace, payload))
      case ApiError(s) => Failed(s)
  }

  function UpsertSecret(service: string, namespace: string, payload: Dict<string>, api: SecretApi): (r: SecretOutcome)
    // Nothing is written, and nothing read, for an empty payload.
    ensures r == Skipped <==> payload == []
    // An existing secret keeps its other keys and takes the payload's values.
    ensures r.Replaced? ==>
      && api.read.Ok? && api.replace.Ok?
      && r.name == service + "-secrets"
      && (forall k :: k in r.data <==> k in api.read.value || k in Keys(payload))
      && (forall k :: k in r.data && k in Keys(payload) ==> Get(payload, k) == Some(r.data[k]))
      && (forall k :: k in r.data && k !in Keys(payload) ==> r.data[k] == api.read.value[k])
    ensures payload != [] && api.read.Ok? && api.replace.Ok? ==> r.Replaced?
    // A missing secret is created with exactly the payload.
    ensures r.Created? ==> r.secret == NewSecret(service, namespace, payload) && api.create.Ok?
    ensures r.Created? <==>
      && payload != [] && api.create.Ok?
      && (api.read == ApiError(NotFound) || (api.read.Ok? && api.replace == ApiError(NotFound)))
    // Every other API error escapes with its status.
    ensures r.Failed? ==>
      || api.read == ApiError(r.status)
      || (api.read.Ok? && api.replace == ApiError(r.status))
      || api.create == ApiError(r.status)
    ensures r.Failed? && r.status == NotFound ==> api.create == ApiError(NotFound)
    // Which error escapes: the first non-404 error, or the create call's own.
    ensures payload != [] && api.read.ApiError? && api.read.status != NotFound ==> r == Failed(api.read.status)
    ensures (payload != [] && api.read.Ok? && api.replace.ApiError? && api.replace.status != NotFound)
      ==> r == Failed(api.replace.status)
    ensures (&& payload != [] && api.create.ApiError?
             && (api.read == ApiError(NotFound) || (api.read.Ok? && api.replace == ApiError(NotFound))))
      ==> r == Failed(api.create.status)
  {
    if payload == [] then Skipped
    else match api.read
      case Ok(existing) =>
        (match api.replace
         case Ok(_) => Replaced(SecretName(service), existing + ToMap(payload))
         case ApiError(status) => OnApiError(service, namespace, payload, status, api.create))
      case ApiError(status) => OnApiError(service, namespace, payload, status, api.create)
  }

  /** Sending the same payload again leaves the replaced data as it was. */
  lemma UpsertAgainSameData(service: string, namespace: string, payload: Dict<string>, api: SecretApi)
    requires payload != [] && api.read.Ok? && api.replace.Ok?
    ensures var first := UpsertSecret(service, namespace, payload, api);
      UpsertSecret(service, namespace, payload, api.(read := Ok(first.data))) == first
  {
  }
}
