/** The application registry: per application id, the gateway endpoint and
    the TLS identity the client presents (core.rb, `Application`, the
    registry setters, `add_application` and `has_application?`). The
    filesystem and OpenSSL's PEM parsers are not modelled; an `Environment`
    value stands for what they would answer at the time of a call. */
module Registry {
  import opened Results
  import opened Bytes
  import opened Endpoints

  type Path = string
  type Passphrase = string

  /** An application id; `Default` is the entry the registry starts with and
      the one the `host=`, `port=`, `pem=` and `pass=` setters change. */
  datatype AppId = Default | Named(name: string)

  /** A parsed X.509 certificate, left opaque. */
  datatype Certificate = Certificate(der: seq<Byte>)

  /** A parsed RSA private key, left opaque. */
  datatype PrivateKey = PrivateKey(der: seq<Byte>)

  /** What `set_cert` consults besides its arguments: the readable files by
      path, the PEM texts OpenSSL accepts as a certificate, and the (PEM
      text, passphrase) pairs from which it reads a private key. */
  datatype Environment = Environment(
    files: map<Path, seq<Byte>>,
    certificates: map<seq<Byte>, Certificate>,
    keys: map<(seq<Byte>, Option<Passphrase>), PrivateKey>)

  /** An `OpenSSL::SSL::SSLContext` as far as the client fills it in. */
  datatype SslContext = SslContext(cert: Option<Certificate>, key: Option<PrivateKey>)

  /** A freshly created context, with neither certificate nor key. */
  const EmptyContext := SslContext(None, None)

  /** One registered application: its gateway endpoint and its TLS context
      (`nil` until a certificate has been set). */
  datatype Application = Application(host: string, port: int, sslContext: Option<SslContext>)

  /** The application can present a client identity: its context holds both
      a certificate and a key. */
  predicate HasIdentity(app: Application) {
    app.sslContext.Some? && app.sslContext.value.cert.Some? && app.sslContext.value.key.Some?
  }

  /** `Application.new(sandbox, port)`: the sandbox or production gateway,
      the given port, and no TLS context yet. */
  function NewApplication(sandbox: bool, port: int): (app: Application)
    ensures app.host == (if sandbox then SandboxGateway else ProductionGateway)
    ensures app.port == port
    ensures app.sslContext.None? && !HasIdentity(app)
  {
    Application(GatewayHost(sandbox), port, None)
  }

  /** The failure points of `set_cert`, in the order it meets them. */
  datatype CertError = PathNotSet | PathMissing | BadCertificate | BadKey

  /** The application after `set_cert`, and the error it raised, if any. A
      failed call leaves its partial effect on the application behind. */
  datatype CertOutcome = CertOutcome(app: Application, error: Option<CertError>)

  /** Whether `set_cert` succeeds: the path is given and readable, its text
      parses as a certificate, and as a key with the passphrase. */
  predicate CertificateLoads(env: Environment, pemPath: Option<Path>, pass: Option<Passphrase>) {
    && pemPath.Some?
    && pemPath.value in env.files
    && env.files[pemPath.value] in env.certificates
    && (env.files[pemPath.value], pass) in env.keys
  }

  /** `set_cert(pem_path, pass)`. The path checks come first and touch
      nothing; then a fresh context replaces the old one before the
      certificate is parsed, and the certificate is stored before the key is. */
  function SetCert(app: Application, env: Environment, pemPath: Option<Path>, pass: Option<Passphrase>): (r: CertOutcome)
    ensures r.app.host == app.host && r.app.port == app.port
    ensures r.error.None? <==> CertificateLoads(env, pemPath, pass)
    ensures r.error.None? ==> HasIdentity(r.app)
    ensures r.error == Some(PathNotSet) <==> pemPath.None?
    ensures r.error == Some(PathMissing) <==> pemPath.Some? && pemPath.value !in env.files
    ensures r.error == Some(BadCertificate) <==>
      pemPath.Some? && pemPath.value in env.files && env.files[pemPath.value] !in env.certificates
    ensures r.error == Some(BadKey) <==>
      && pemPath.Some? && pemPath.value in env.files && env.files[pemPath.value] in env.certificates
      && (env.files[pemPath.value], pass) !in env.keys
    ensures r.error == Some(PathNotSet) || r.error == Some(PathMissing) ==> r.app == app
    ensures r.error == Some(BadCertificate) ==> r.app.sslContext == Some(EmptyContext)
    ensures r.error == Some(BadKey) ==>
      && pemPath.Some? && pemPath.value in env.files && env.files[pemPath.value] in env.certificates
      && r.app.sslContext == Some(SslContext(Some(env.certificates[env.files[pemPath.value]]), None))
    ensures r.error.None? ==>
      && CertificateLoads(env, pemPath, pass)
      && r.app.sslContext == Some(SslContext(Some(env.certificates[env.files[pemPath.value]]),
                                             Some(env.keys[(env.files[pemPath.value], pass)])))
  {
    if pemPath.None? then CertOutcome(app, Some(PathNotSet))
    else if pemPath.value !in env.files then CertOutcome(app, Some(PathMissing))
    else
      var pem := env.files[pemPath.value];
      if pem !in env.certificates then
        CertOutcome(app.(sslContext := Some(EmptyContext)), Some(BadCertificate))
      else
        var cert := env.certificates[pem];
        if (pem, pass) !in env.keys then
          CertOutcome(app.(sslContext := Some(SslContext(Some(cert), None))), Some(BadKey))
        else
          CertOutcome(app.(sslContext := Some(SslContext(Some(cert), Some(env.keys[(pem, pass)])))), None)
  }

  /** After `set_cert` the application can present an identity exactly when
      the call succeeded, or when it failed on the path checks and it could
      before: a parse failure destroys a previously loaded identity. */
  lemma SetCertIdentity(app: Application, env: Environment, pemPath: Option<Path>, pass: Option<Passphrase>)
    ensures HasIdentity(SetCert(app, env, pemPath, pass).app) <==>
      (CertificateLoads(env, pemPath, pass)
       || ((pemPath.None? || pemPath.value !in env.files) && HasIdentity(app)))
  {
  }

  /** The registry: applications by id, and the PEM path and passphrase last
      given to the default setters. */
  datatype Registry = Registry(
    apps: map<AppId, Application>,
    defaultPem: Option<Path>,
    defaultPass: Option<Passphrase>)

  /** The registry at load time: `{:default => Application.new}`, a sandbox
      application on the default port, and no PEM path or passphrase. */
  const Initial := Registry(map[Default := NewApplication(true, GatewayPort)], None, None)

  /** The default entry exists; every setter relies on it. */
  predicate Valid(reg: Registry) {
    Default in reg.apps
  }

  /** `has_application?(app_id)`. */
  function HasApplication(reg: Registry, id: AppId): bool {
    id in reg.apps
  }

  /** The registry at load time knows the default application only, with the
      sandbox gateway on port 2195 and no identity. */
  lemma InitialRegistry()
    ensures Valid(Initial)
    ensures forall id :: HasApplication(Initial, id) <==> id == Default
    ensures Initial.apps[Default].host == SandboxGateway
    ensures Initial.apps[Default].port == GatewayPort
    ensures !HasIdentity(Initial.apps[Default])
  {
  }

  /** Every entry other than the default one is as it was. */
  predicate OthersUnchanged(before: Registry, after: Registry) {
    && after.apps.Keys == before.apps.Keys
    && forall id :: id in before.apps && id != Default ==> after.apps[id] == before.apps[id]
  }

  /** `host=`: sets the default application's host, nothing else. */
  function SetHost(reg: Registry, host: string): (r: Registry)
    requires Valid(reg)
    ensures Valid(r) && OthersUnchanged(reg, r)
    ensures r.apps[Default] == reg.apps[Default].(host := host)
    ensures r.defaultPem == reg.defaultPem && r.defaultPass == reg.defaultPass
  {
    reg.(apps := reg.apps[Default := reg.apps[Default].(host := host)])
  }

  /** `port=`: sets the default application's port, nothing else. */
  function SetPort(reg: Registry, port: int): (r: Registry)
    requires Valid(reg)
    ensures Valid(r) && OthersUnchanged(reg, r)
    ensures r.apps[Default] == reg.apps[Default].(port := port)
    ensures r.defaultPem == reg.defaultPem && r.defaultPass == reg.defaultPass
  {
    reg.(apps := reg.apps[Default := reg.apps[Default].(port := port)])
  }

  /** Re-runs `set_cert` on the default application with the stored path and
      passphrase, keeping whatever it left behind and dropping its error
      (the `rescue` modifier in `pem=` and `pass=`). */
  function ReloadDefault(reg: Registry, env: Environment): (r: Registry)
    requires Valid(reg)
    ensures Valid(r) && OthersUnchanged(reg, r)
    ensures r.defaultPem == reg.defaultPem && r.defaultPass == reg.defaultPass
    ensures r.apps[Default].host == reg.apps[Default].host
    ensures r.apps[Default].port == reg.apps[Default].port
    ensures r.apps[Default] == SetCert(reg.apps[Default], env, reg.defaultPem, reg.defaultPass).app
    ensures HasIdentity(r.apps[Default]) <==>
      (CertificateLoads(env, reg.defaultPem, reg.defaultPass)
       || ((reg.defaultPem.None? || reg.defaultPem.value !in env.files) && HasIdentity(reg.apps[Default])))
    ensures reg.defaultPem.None? || reg.defaultPem.value !in env.files ==> r == reg
  {
    SetCertIdentity(reg.apps[Default], env, reg.defaultPem, reg.defaultPass);
    var out := SetCert(reg.apps[Default], env, reg.defaultPem, reg.defaultPass);
    reg.(apps := reg.apps[Default := out.app])
  }

  /** `pem=`: records the new path and reloads the default identity; never raises. */
  function SetPem(reg: Registry, env: Environment, pem: Option<Path>): (r: Registry)
    requires Valid(reg)
    ensures Valid(r) && OthersUnchanged(reg, r)
    ensures r.defaultPem == pem && r.defaultPass == reg.defaultPass
    ensures r.apps[Default].host == reg.apps[Default].host && r.apps[Default].port == reg.apps[Default].port
    ensures r.apps[Default] == SetCert(reg.apps[Default], env, pem, reg.defaultPass).app
    ensures HasIdentity(r.apps[Default]) <==>
      (CertificateLoads(env, pem, reg.defaultPass)
       || ((pem.None? || pem.value !in env.files) && HasIdentity(reg.apps[Default])))
    ensures pem.None? || pem.value !in env.files ==> r.apps == reg.apps
  {
    ReloadDefault(reg.(defaultPem := pem), env)
  }

  /** `pass=`: records the new passphrase and reloads the default identity;
      never raises. */
  function SetPass(reg: Registry, env: Environment, pass: Option<Passphrase>): (r: Registry)
    requires Valid(reg)
    ensures Valid(r) && OthersUnchanged(reg, r)
    ensures r.defaultPass == pass && r.defaultPem == reg.defaultPem
    ensures r.apps[Default].host == reg.apps[Default].host && r.apps[Default].port == reg.apps[Default].port
    ensures r.apps[Default] == SetCert(reg.apps[Default], env, reg.defaultPem, pass).app
    ensures HasIdentity(r.apps[Default]) <==>
      (CertificateLoads(env, reg.defaultPem, pass)
       || ((reg.defaultPem.None? || reg.defaultPem.value !in env.files) && HasIdentity(reg.apps[Default])))
    ensures reg.defaultPem.None? || reg.defaultPem.value !in env.files ==> r.apps == reg.apps
  {
    ReloadDefault(reg.(defaultPass := pass), env)
  }

  /** The registry after an operation that may raise, and the error raised. */
  datatype Step = Step(registry: Registry, error: Option<CertError>)

  /** `add_application(app_id, pem_path, pass, sandbox)`: builds a new
      application, loads its certificate, and only then stores it under the
      id, replacing any earlier entry. */
  function AddApplication(reg: Registry, env: Environment, id: AppId, pemPath: Option<Path>,
                          pass: Option<Passphrase>, sandbox: bool): (r: Step)
    ensures r.error.None? <==> CertificateLoads(env, pemPath, pass)
    ensures r.error == SetCert(NewApplication(sandbox, GatewayPort), env, pemPath, pass).error
    ensures r.error.Some? ==> r.registry == reg
    ensures r.error.None? ==>
      && HasApplication(r.registry, id)
      && r.registry.apps.Keys == reg.apps.Keys + {id}
      && r.registry.apps[id].host == GatewayHost(sandbox)
      && r.registry.apps[id].port == GatewayPort
      && HasIdentity(r.registry.apps[id])
      && r.registry.apps[id] == SetCert(NewApplication(sandbox, GatewayPort), env, pemPath, pass).app
      && (forall other :: other in reg.apps && other != id ==> r.registry.apps[other] == reg.apps[other])
      && r.registry.defaultPem == reg.defaultPem && r.registry.defaultPass == reg.defaultPass
  {
    var out := SetCert(NewApplication(sandbox, GatewayPort), env, pemPath, pass);
    if out.error.Some? then Step(reg, out.error)
    else Step(reg.(apps := reg.apps[id := out.app]), None)
  }

  /** `has_application?` after `add_application`: the ids known are those
      known before, plus the new id exactly when its certificate loaded. */
  lemma AddApplicationRegisters(reg: Registry, env: Environment, id: AppId, pemPath: Option<Path>,
                                pass: Option<Passphrase>, sandbox: bool, other: AppId)
    ensures HasApplication(AddApplication(reg, env, id, pemPath, pass, sandbox).registry, other) <==>
      (HasApplication(reg, other) || (other == id && CertificateLoads(env, pemPath, pass)))
  {
  }

  /** The configuration calls a program can make on the registry. */
  datatype Op =
    | HostOp(host: string)
    | PortOp(port: int)
    | PemOp(pemEnv: Environment, pem: Option<Path>)
    | PassOp(passEnv: Environment, pass: Option<Passphrase>)
    | AddOp(addEnv: Environment, id: AppId, pemPath: Option<Path>, addPass: Option<Passphrase>, sandbox: bool)

  /** One call; a raising `add_application` leaves the registry as it was. */
  function Apply(reg: Registry, op: Op): (r: Registry)
    requires Valid(reg)
  {
    match op
    case HostOp(h) => SetHost(reg, h)
    case PortOp(p) => SetPort(reg, p)
    case PemOp(env, pem) => SetPem(reg, env, pem)
    case PassOp(env, pass) => SetPass(reg, env, pass)
    case AddOp(env, id, pem, pass, sandbox) => AddApplication(reg, env, id, pem, pass, sandbox).registry
  }

  /** A sequence of calls, in order. The default entry is never lost and no
      application is ever removed. */
  function Run(reg: Registry, ops: seq<Op>): (r: Registry)
    requires Valid(reg)
    ensures Valid(r)
    ensures reg.apps.Keys <= r.apps.Keys
    decreases |ops|
  {
    if |ops| == 0 then reg else Run(Apply(reg, ops[0]), ops[1..])
  }

  /** Applications are only added by a successful `add_application`: after
      any sequence of calls starting from load time, every id the registry
      knows is the default one or the id of some registration call. */
  lemma {:induction false} RunRegisteredIds(reg: Registry, ops: seq<Op>, id: AppId)
    requires Valid(reg)
    requires HasApplication(Run(reg, ops), id)
    ensures HasApplication(reg, id) || exists i :: 0 <= i < |ops| && ops[i].AddOp? && ops[i].id == id
    decreases |ops|
  {
    if |ops| > 0 {
      var next := Apply(reg, ops[0]);
      RunRegisteredIds(next, ops[1..], id);
      if !HasApplication(next, id) {
        var i :| 0 <= i < |ops[1..]| && ops[1..][i].AddOp? && ops[1..][i].id == id;
        assert ops[i + 1] == ops[1..][i];
      } else if !HasApplication(reg, id) {
        assert ops[0].AddOp? && ops[0].id == id;
      }
    }
  }
}
