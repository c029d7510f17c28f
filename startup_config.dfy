/**
 * The startup check: the six required settings are listed in declaration
 * order, the names of those whose value is falsy are collected
 * (`Object.entries(...).filter(([_, v]) => !v).map(([n]) => n)`), and
 * startup throws when that list is not empty.
 */
module StartupConfig {
  import opened Wrappers
  import opened JsText

  /** `Number(process.env.ALLOWED_USER_ID)`, restricted to NaN and integral values. */
  datatype JsNumber = NaN | Finite(value: int)

  /** A required setting's value: an environment string (maybe undefined) or a number. */
  datatype SettingValue = Text(text: Option<string>) | Number(number: JsNumber)

  /** JavaScript falsiness of a setting's value: undefined, "", NaN and 0. */
  predicate Falsy(v: SettingValue) {
    match v
    case Text(t) => t == None || t == Some("")
    case Number(n) => n == NaN || n == Finite(0)
  }

  /** The process environment as read at startup. */
  datatype Env = Env(
    telegramToken: Option<string>,
    allowedUserId: JsNumber,
    s3Endpoint: Option<string>,
    s3Bucket: Option<string>,
    s3AccessKeyId: Option<string>,
    s3SecretAccessKey: Option<string>)

  datatype Setting = Setting(name: string, value: SettingValue)

  /** `requiredEnvVars`, in declaration order. */
  function RequiredSettings(env: Env): seq<Setting> {
    [ Setting("TELEGRAM_TOKEN", Text(env.telegramToken)),
      Setting("ALLOWED_USER_ID", Number(env.allowedUserId)),
      Setting("S3_ENDPOINT", Text(env.s3Endpoint)),
      Setting("S3_BUCKET", Text(env.s3Bucket)),
      Setting("S3_ACCESS_KEY_ID", Text(env.s3AccessKeyId)),
      Setting("S3_SECRET_ACCESS_KEY", Text(env.s3SecretAccessKey)) ]
  }

  /** How many of the settings are falsy. */
  function FalsyCount(settings: seq<Setting>): nat {
    if settings == [] then 0
    else FalsyCount(settings[..|settings| - 1]) + if Falsy(settings[|settings| - 1].value) then 1 else 0
  }

  /** `missingVars`: the names of the falsy settings. */
  function MissingVars(settings: seq<Setting>): (names: seq<string>)
    ensures |names| == FalsyCount(settings)
  {
    if settings == [] then []
    else
      var last := settings[|settings| - 1];
      MissingVars(settings[..|settings| - 1]) + if Falsy(last.value) then [last.name] else []
  }

  /**
   * Every falsy setting's name is in the list, at the position given by the
   * number of falsy settings declared before it; so the list keeps
   * declaration order.
   */
  lemma {:induction false} MissingVarsListsFalsy(settings: seq<Setting>, i: nat)
    requires i < |settings| && Falsy(settings[i].value)
    ensures FalsyCount(settings[..i]) < |MissingVars(settings)|
    ensures MissingVars(settings)[FalsyCount(settings[..i])] == settings[i].name
  {
    var n := |settings| - 1;
    var init := settings[..n];
    if i < n {
      assert init[..i] == settings[..i];
      MissingVarsListsFalsy(init, i);
    } else {
      assert settings[..i] == init;
    }
  }

  /** Every name in the list comes from a falsy setting, the k-th falsy one in declaration order. */
  lemma {:induction false} MissingVarsOnlyFalsy(settings: seq<Setting>, k: nat) returns (i: nat)
    requires k < |MissingVars(settings)|
    ensures i < |settings| && Falsy(settings[i].value)
    ensures FalsyCount(settings[..i]) == k && MissingVars(settings)[k] == settings[i].name
  {
    var n := |settings| - 1;
    var init := settings[..n];
    if k < |MissingVars(init)| {
      i := MissingVarsOnlyFalsy(init, k);
      assert init[..i] == settings[..i];
    } else {
      i := n;
      assert settings[..i] == init;
    }
  }

  /** The list is empty exactly when no setting is falsy. */
  lemma {:induction false} NoMissingVars(settings: seq<Setting>)
    ensures MissingVars(settings) == [] <==> forall i :: 0 <= i < |settings| ==> !Falsy(settings[i].value)
  {
    if MissingVars(settings) != [] {
      var i := MissingVarsOnlyFalsy(settings, 0);
    }
    forall i | 0 <= i < |settings| && Falsy(settings[i].value)
      ensures MissingVars(settings) != []
    {
      MissingVarsListsFalsy(settings, i);
    }
  }

  const MISSING_HEAD := "Missing environment variables: "
  const MISSING_TAIL := " \U{1F631}\nPlease check your .env file \U{1F50D}"

  /** The module-level check: throws with the joined names when any required setting is falsy. */
  function StartupCheck(env: Env): (r: Result<Env, string>)
    ensures r.Err? <==> exists i :: 0 <= i < 6 && Falsy(RequiredSettings(env)[i].value)
    ensures r.Ok? ==> r.value == env
  {
    var missing := MissingVars(RequiredSettings(env));
    NoMissingVars(RequiredSettings(env));
    if |missing| > 0 then Err(MISSING_HEAD + Join(missing, ", ") + MISSING_TAIL)
    else Ok(env)
  }

  /** With only the user id unusable (NaN), the message names that setting alone. */
  lemma OnlyUserIdMissing(token: string, endpoint: string, bucket: string, keyId: string, secret: string)
    requires token != "" && endpoint != "" && bucket != "" && keyId != "" && secret != ""
    ensures StartupCheck(Env(Some(token), NaN, Some(endpoint), Some(bucket), Some(keyId), Some(secret))) ==
      Err(MISSING_HEAD + "ALLOWED_USER_ID" + MISSING_TAIL)
  {
    var settings := RequiredSettings(Env(Some(token), NaN, Some(endpoint), Some(bucket), Some(keyId), Some(secret)));
    assert settings[..1][..0] == [];
    assert MissingVars(settings[..1]) == [];
    assert settings[..2][..1] == settings[..1];
    assert MissingVars(settings[..2]) == ["ALLOWED_USER_ID"];
    assert settings[..3][..2] == settings[..2];
    assert MissingVars(settings[..3]) == ["ALLOWED_USER_ID"];
    assert settings[..4][..3] == settings[..3];
    assert MissingVars(settings[..4]) == ["ALLOWED_USER_ID"];
    assert settings[..5][..4] == settings[..4];
    assert MissingVars(settings[..5]) == ["ALLOWED_USER_ID"];
    assert settings[..5] == settings[..|settings| - 1];
    assert MissingVars(settings) == ["ALLOWED_USER_ID"];
    assert Join(["ALLOWED_USER_ID"], ", ") == "ALLOWED_USER_ID";
  }
}
