/**
 * The one hard-coded sensitive-field rule of update_env.py (lines 41-53):
 * the `password` field of the JSON object held in INPUT_CONNECTION_CONFIG is
 * moved out of the environment mapping into the secret payload.
 *
 * JSON parsing, JSON serialisation and the base64 encoding of the password
 * (the standard base64 alphabet of section 4 of RFC 4648, applied to the
 * UTF-8 bytes) are library calls; they are parameters here: `parse` yields
 * None where json.loads raises a decode error, `dump` is json.dumps and
 * `encode` is the base64 text of a string.
 */
module SensitiveExtraction {
  import opened Wrappers
  import opened Dicts

  const ConnectionConfigKey := "INPUT_CONNECTION_CONFIG"
  const PasswordField := "password"
  const PasswordSecretKey := "INPUT_CONNECTION_CONFIG_PASSWORD"

  /** A field value of the parsed config: a JSON string, or any other JSON value in its encoded form. */
  datatype JsonValue = JsonString(text: string) | JsonOther(encoded: string)

  /** A parsed JSON object, its fields in document order. */
  type JsonObject = Dict<JsonValue>

  /** The environment mapping after the rule, and the secret payload it produced. */
  datatype Extraction = Extraction(envVars: Dict<string>, secretData: Dict<string>)

  /**
   * A password that is not a JSON string has no `.encode`: the AttributeError
   * escapes the JSON-error handler and ends the run before any API write.
   */
  datatype ExtractError = PasswordNotString

  function Extract(envVars: Dict<string>, parse: string -> Option<JsonObject>,
                   dump: JsonObject -> string, encode: string -> string): (r: Result<Extraction, ExtractError>)
    // Absent or unparseable config: nothing moves, and no secret is produced.
    ensures Get(envVars, ConnectionConfigKey).None? ==> r == Success(Extraction(envVars, []))
    ensures var raw := Get(envVars, ConnectionConfigKey);
      raw.Some? && parse(raw.value).None? ==> r == Success(Extraction(envVars, []))
    // A parsed config: the outcome depends on its password field.
    ensures var raw := Get(envVars, ConnectionConfigKey);
      raw.Some? && parse(raw.value).Some? ==>
        var config: JsonObject := parse(raw.value).value;
        var field: Option<JsonValue> := Get(config, PasswordField);
        match field
        case None => r == Success(Extraction(envVars, []))
        case Some(JsonOther(_)) => r == Failure(PasswordNotString)
        case Some(JsonString(password)) =>
          && r.Success?
          && r.value.secretData == [(PasswordSecretKey, encode(password))]
          && Get(r.value.envVars, ConnectionConfigKey) == Some(dump(Remove(config, PasswordField)))
    // Whatever happens, no other variable is added, removed, moved or changed.
    ensures r.Success? ==> Keys(r.value.envVars) == Keys(envVars)
    ensures r.Success? ==> forall q :: q != ConnectionConfigKey ==> Get(r.value.envVars, q) == Get(envVars, q)
    // The config is re-serialised only when a password was moved out.
    ensures r.Success? && r.value.secretData == [] ==> r.value.envVars == envVars
  {
    match Get(envVars, ConnectionConfigKey)
    case None => Success(Extraction(envVars, []))
    case Some(raw) =>
      match parse(raw)
      case None => Success(Extraction(envVars, []))  // the warning of line 53
      case Some(config) =>
        var field: Option<JsonValue> := Get(config, PasswordField);
        match field
        case None => Success(Extraction(envVars, []))
        case Some(JsonOther(_)) => Failure(PasswordNotString)
        case Some(JsonString(password)) =>
          var secretData := [(PasswordSecretKey, encode(password))];
          Success(Extraction(Put(envVars, ConnectionConfigKey, dump(Remove(config, PasswordField))), secretData))
  }
}
