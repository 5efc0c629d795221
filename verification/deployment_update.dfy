/**
 * The local part of `update_deployment` (update_env.py, lines 38-106), in the
 * order the script runs it: move the password out of the input, write the
 * Secret, then merge the input and the secret references into the first
 * container of the deployment that was read.
 *
 * Reading and patching the Deployment are Kubernetes calls: the Deployment
 * object is the result of the read, and the state it is left in is what the
 * patch sends.  Every exception ends the run where it is raised; the script
 * prints it, so the outcome is returned here instead.
 */
module DeploymentUpdate {
  import opened Wrappers
  import opened Dicts
  import opened EnvMerge
  import opened SensitiveExtraction
  import opened SecretUpsert
  import opened EnvMergeFacts

  /** The Deployment as read; only its pod template's container list is used. */
  class Deployment {
    var containers: seq<Container>

    constructor (containers: seq<Container>)
      ensures this.containers == containers
    {
      this.containers := containers;
    }
  }

  datatype RunError =
    | ExtractFailed(cause: ExtractError)   // an exception from the password rule
    | SecretWriteFailed(status: int)       // an ApiException from the secret calls
    | NoContainer                          // containers[0] raises IndexError

  datatype Status = Patched | Aborted(error: RunError)

  method UpdateDeployment(deployment: Deployment, service: string, namespace: string,
                          envVars: Dict<string>, parse: string -> Option<JsonObject>,
                          dump: JsonObject -> string, encode: string -> string, api: SecretApi)
    returns (secret: SecretOutcome, status: Status)
    modifies if |deployment.containers| > 0 then {deployment.containers[0]} else {}
    ensures var ex := Extract(envVars, parse, dump, encode);
      match ex
      case Failure(e) => secret == Skipped && status == Aborted(ExtractFailed(e))
      case Success(x) =>
        && secret == UpsertSecret(service, namespace, x.secretData, api)
        && (secret.Failed? ==> status == Aborted(SecretWriteFailed(secret.status)))
        && (!secret.Failed? && deployment.containers == [] ==> status == Aborted(NoContainer))
        && (!secret.Failed? && deployment.containers != [] ==>
              && status == Patched
              && deployment.containers[0].env
                   == Some(UpdatedEnv(old(deployment.containers[0].env), x.envVars, x.secretData,
                                      SecretName(service))))
    ensures status != Patched && deployment.containers != [] ==> unchanged(deployment.containers[0])
  {
    var ex := Extract(envVars, parse, dump, encode);
    if ex.Failure? {
      return Skipped, Aborted(ExtractFailed(ex.error));
    }
    var extracted := ex.value;
    secret := UpsertSecret(service, namespace, extracted.secretData, api);
    if secret.Failed? {
      return secret, Aborted(SecretWriteFailed(secret.status));
    }
    if deployment.containers == [] {
      return secret, Aborted(NoContainer);
    }
    MergeEnv(deployment.containers[0], extracted.envVars, extracted.secretData, SecretName(service));
    status := Patched;
  }

  /**
   * What a patched container holds: every variable of the input (after the
   * password rule) with its literal value at the first entry of its name, and,
   * when a password was moved out, a last entry that reads it from the Secret.
   */
  lemma PatchedEnvHoldsInputs(env: Option<seq<EnvVar>>, envVars: Dict<string>, parse: string -> Option<JsonObject>,
                              dump: JsonObject -> string, encode: string -> string, service: string)
    requires DistinctKeys(envVars)
    requires Extract(envVars, parse, dump, encode).Success?
    ensures var x := Extract(envVars, parse, dump, encode).value;
      var final := UpdatedEnv(env, x.envVars, x.secretData, SecretName(service));
      && HoldsInputs(final, x.envVars)
      && (x.secretData != [] ==> final[|final| - 1] == SecretRef(service + "-secrets", PasswordSecretKey))
  {
    var x := Extract(envVars, parse, dump, encode).value;
    forall i, j | 0 <= i < j < |x.envVars| ensures x.envVars[i].0 != x.envVars[j].0 {
      assert Keys(x.envVars)[i] == Keys(envVars)[i] && Keys(x.envVars)[j] == Keys(envVars)[j];
    }
    var plain := UpsertAll(env.GetOr([]), x.envVars);
    UpsertAllCovers(env.GetOr([]), x.envVars);
    HoldsInputsAppend(plain, SecretRefs(SecretName(service), Keys(x.secretData)), x.envVars);
  }
}
