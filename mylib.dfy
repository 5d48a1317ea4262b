/** The C-interop example library: a `Config` record with a constructor and
    getters, the `Status` enum mapped to integer codes, two range
    validators, and integer helpers. Validators return `uint8_t` 1 or 0. */
module MyLib {
  import opened CInt

  /** `mylib_Config`. */
  datatype Config = Config(timeout: Int64, retries: Int64, enabled: UInt8)

  /** `mylib_config_get_timeout`: the value that, put back beside the other
      two fields, rebuilds cfg. */
  function ConfigGetTimeout(cfg: Config): (t: Int64)
    ensures Config(t, cfg.retries, cfg.enabled) == cfg
  {
    cfg.timeout
  }

  /** `mylib_config_get_retries`. */
  function ConfigGetRetries(cfg: Config): (r: Int64)
    ensures Config(cfg.timeout, r, cfg.enabled) == cfg
  {
    cfg.retries
  }

  /** `mylib_config_is_enabled`. */
  function ConfigIsEnabled(cfg: Config): (e: UInt8)
    ensures Config(cfg.timeout, cfg.retries, e) == cfg
  {
    cfg.enabled
  }

  /** `mylib_create_config`: the getters give back exactly what was passed in. */
  function CreateConfig(timeout: Int64, retries: Int64, enabled: UInt8): (cfg: Config)
    ensures ConfigGetTimeout(cfg) == timeout
    ensures ConfigGetRetries(cfg) == retries
    ensures ConfigIsEnabled(cfg) == enabled
  {
    Config(timeout, retries, enabled)
  }

  /** The other direction: rebuilding a config from its getters gives it back. */
  lemma CreateFromGetters(cfg: Config)
    ensures CreateConfig(ConfigGetTimeout(cfg), ConfigGetRetries(cfg), ConfigIsEnabled(cfg)) == cfg
  {
  }

  /** `mylib_add`; signed overflow is undefined in C and excluded. */
  function Add(a: Int64, b: Int64): (r: Int64)
    requires InInt64(a as int + b as int)
    ensures r as int == a as int + b as int
  {
    a + b
  }

  /** `mylib_multiply`; signed overflow is undefined in C and excluded. */
  function Multiply(a: Int64, b: Int64): (r: Int64)
    requires InInt64(a as int * b as int)
    ensures r as int == a as int * b as int
  {
    a * b
  }

  /** `mylib_Status`, enumerators in declaration order ok, error, timeout. */
  datatype Status = StatusOk | StatusError | StatusTimeout

  const Statuses: seq<Status> := [StatusOk, StatusError, StatusTimeout]

  /** `mylib_status_code`: each status's declaration ordinal; the final -1
      fallback is never taken for a declared status. */
  function StatusCode(s: Status): (r: Int64)
    ensures r != -1
    ensures 0 <= r < 3 && Statuses[r] == s
  {
    var code: int :=
      if s.StatusOk? then 0
      else if s.StatusError? then 1
      else if s.StatusTimeout? then 2
      else -1;
    code as Int64
  }

  /** `mylib_validate_timeout`: 1 exactly for 0 <= timeout <= 3600, else 0. */
  function ValidateTimeout(timeout: Int64): (r: UInt8)
    ensures r == 0 || r == 1
    ensures r == 1 <==> 0 <= timeout <= 3600
  {
    if timeout >= 0 && timeout <= 3600 then 1 else 0
  }

  /** `mylib_validate_retries`: 1 exactly for 0 <= retries <= 10, else 0. */
  function ValidateRetries(retries: Int64): (r: UInt8)
    ensures r == 0 || r == 1
    ensures r == 1 <==> 0 <= retries <= 10
  {
    if retries >= 0 && retries <= 10 then 1 else 0
  }

  /** `mylib_parse_config`: the strings are not parsed; the result is the
      fixed config timeout 30, retries 3, enabled, which both validators
      accept. */
  function ParseConfig(timeoutStr: string, retriesStr: string): (cfg: Config)
    ensures cfg == CreateConfig(30, 3, 1)
    ensures ValidateTimeout(cfg.timeout) == 1 && ValidateRetries(cfg.retries) == 1
  {
    Config(30, 3, 1)
  }
}
