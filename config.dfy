/**
 * Start-up settings (config.js): `required(key, defaultvalue)` looks a key up
 * in the process environment, and the `config` object is built from five
 * such lookups. The environment is given as a map; loading it from a file is
 * not modelled.
 */
module Config {

  /** The JavaScript values involved: environment entries are strings, defaults may be anything. */
  datatype JsValue = Undefined | Null | Str(s: string) | Num(n: int)

  /** A result, or the message of the Error that `required` throws. */
  datatype Outcome<+T> = Ok(value: T) | Thrown(message: string) {
    predicate IsFailure() {
      Thrown?
    }

    function PropagateFailure<U>(): Outcome<U>
      requires Thrown?
    {
      Thrown(message)
    }

    function Extract(): T
      requires Ok?
    {
      value
    }
  }

  type Env = map<string, string>

  /** `process.env[key]`: the string stored under the key, or undefined. */
  function EnvValue(env: Env, key: string): JsValue {
    if key in env then Str(env[key]) else Undefined
  }

  /** JavaScript truthiness (NaN is not modelled). */
  predicate Truthy(v: JsValue) {
    match v
    case Undefined => false
    case Null => false
    case Str(s) => s != ""
    case Num(n) => n != 0
  }

  /** `a || b`: `a` when it is truthy, otherwise `b`, whatever `b` is. */
  function Or(a: JsValue, b: JsValue): JsValue {
    if Truthy(a) then a else b
  }

  /** `v == null`, the loose comparison: true of null and of undefined. */
  predicate LooselyNull(v: JsValue) {
    v.Undefined? || v.Null?
  }

  /** The environment holds a non-empty string for `key`. */
  predicate IsSet(env: Env, key: string) {
    key in env && env[key] != ""
  }

  function MissingKey(key: string): string {
    "Key " + key + " is undefined"
  }

  /**
   * `required(key, defaultvalue)`: a non-empty environment value wins; a
   * missing or empty one yields the default; it throws when that default is
   * null or undefined. A default of `''` or `0` is returned, not thrown.
   */
  function Required(env: Env, key: string, defaultValue: JsValue): (r: Outcome<JsValue>)
    ensures IsSet(env, key) ==> r == Ok(Str(env[key]))
    ensures !IsSet(env, key) && !LooselyNull(defaultValue) ==> r == Ok(defaultValue)
    ensures !IsSet(env, key) && LooselyNull(defaultValue) ==> r == Thrown(MissingKey(key))
  {
    var value := Or(EnvValue(env, key), defaultValue);
    if LooselyNull(value) then Thrown(MissingKey(key)) else Ok(value)
  }

  datatype DbSettings = DbSettings(host: JsValue, user: JsValue, password: JsValue, database: JsValue)

  datatype Settings = Settings(db: DbSettings, port: JsValue)

  /**
   * The `config` object: the lookups run in the order the object literal
   * lists them, and the first one that throws decides the error.
   */
  function LoadConfig(env: Env): (r: Outcome<Settings>)
    ensures r.Ok? <==> IsSet(env, "HOST") && IsSet(env, "USERNAME") && IsSet(env, "DATABASE")
    ensures !IsSet(env, "HOST") ==> r == Thrown(MissingKey("HOST"))
    ensures IsSet(env, "HOST") && !IsSet(env, "USERNAME") ==> r == Thrown(MissingKey("USERNAME"))
    ensures IsSet(env, "HOST") && IsSet(env, "USERNAME") && !IsSet(env, "DATABASE") ==> r == Thrown(MissingKey("DATABASE"))
    ensures r.Ok? ==> r.value.db.host == Str(env["HOST"]) && r.value.db.user == Str(env["USERNAME"]) &&
                      r.value.db.database == Str(env["DATABASE"])
    ensures r.Ok? ==> r.value.db.password == if IsSet(env, "PASSWORD") then Str(env["PASSWORD"]) else Str("")
    ensures r.Ok? ==> r.value.port == if IsSet(env, "HOST_PORT") then Str(env["HOST_PORT"]) else Num(8080)
  {
    var host :- Required(env, "HOST", Undefined);
    var user :- Required(env, "USERNAME", Undefined);
    // A default that is not null or undefined makes a lookup total.
    var password := Required(env, "PASSWORD", Str("")).value;
    var database :- Required(env, "DATABASE", Undefined);
    var port := Required(env, "HOST_PORT", Num(8080)).value;
    Ok(Settings(DbSettings(host, user, password, database), port))
  }
}
