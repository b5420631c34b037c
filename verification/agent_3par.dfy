/** The argument builder of the 3PAR special agent (`agent_3par_arguments` in
    `cmk/base/legacy_checks/agent_3par.py`). How a password becomes an
    argument is the password store's business: `passwordstore_get_cmdline`
    is a parameter here. */
module Agent3Par {
  import opened Wrappers
  import opened Strings
  import opened SpecialAgentArgs

  datatype Params = Params(
    user: string,
    password: Password,
    port: int,
    verifyCert: Option<bool>,
    values: Option<seq<string>>)

  /** `passwordstore_get_cmdline(format, password)`. */
  type PasswordCmdline = (string, Password) -> Arg

  /** `ipaddress or hostname`: an empty address counts as absent. */
  function Target(hostname: string, ipaddress: Option<string>): (t: string)
    ensures t == hostname || (ipaddress.Some? && t == ipaddress.value)
    ensures ipaddress.Some? && ipaddress.value != "" ==> t == ipaddress.value
    ensures ipaddress.None? || ipaddress.value == "" ==> t == hostname
  {
    if ipaddress.Some? && ipaddress.value != "" then ipaddress.value else hostname
  }

  /** `agent_3par_arguments`. */
  function Arguments(p: Params, hostname: string, ipaddress: Option<string>, cmdline: PasswordCmdline): (args: seq<Arg>)
    ensures |args| == 7 + (if p.verifyCert != Some(true) then 1 else 0) + (if p.values.Some? then 2 else 0)
    ensures args[..6] == [Str("--user"), Str(p.user), Str("--password"), cmdline("%s", p.password), Str("--port"), Int(p.port)]
    ensures args[|args| - 1] == Str(Target(hostname, ipaddress))
  {
    [Str("--user"), Str(p.user), Str("--password"), cmdline("%s", p.password), Str("--port"), Int(p.port)]
      + (if p.verifyCert != Some(true) then [Str("--no-cert-check")] else [])
      + (if p.values.Some? then [Str("--values"), Str(Join(p.values.value, ","))] else [])
      + [Str(Target(hostname, ipaddress))]
  }

  /** Certificate checking is switched off unless `verify_cert` is set and true. */
  lemma NoCertCheckIff(p: Params, hostname: string, ipaddress: Option<string>, cmdline: PasswordCmdline)
    requires cmdline("%s", p.password) != Str("--no-cert-check")
    requires p.user != "--no-cert-check"
    requires hostname != "--no-cert-check" && ipaddress != Some("--no-cert-check")
    requires p.values.Some? ==> Join(p.values.value, ",") != "--no-cert-check"
    ensures Str("--no-cert-check") in Arguments(p, hostname, ipaddress, cmdline) <==> p.verifyCert != Some(true)
  {
    var args := Arguments(p, hostname, ipaddress, cmdline);
    if p.verifyCert != Some(true) {
      assert args[6] == Str("--no-cert-check");
    } else if p.values.Some? {
      assert args == args[..6] + [Str("--values"), Str(Join(p.values.value, ","))] + [Str(Target(hostname, ipaddress))];
    }
  }

  /** `--values` is followed by the comma-joined list, and appears exactly when
      values are configured. */
  lemma ValuesArgs(p: Params, hostname: string, ipaddress: Option<string>, cmdline: PasswordCmdline)
    requires cmdline("%s", p.password) != Str("--values")
    requires p.user != "--values"
    requires hostname != "--values" && ipaddress != Some("--values")
    ensures Str("--values") in Arguments(p, hostname, ipaddress, cmdline) <==> p.values.Some?
    ensures p.values.Some? ==>
      var args := Arguments(p, hostname, ipaddress, cmdline);
      args[|args| - 3] == Str("--values") && args[|args| - 2] == Str(Join(p.values.value, ","))
  {
  }
}
