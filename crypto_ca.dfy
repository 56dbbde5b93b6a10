/**
 * Where the certificate authority keeps its files (`ca_folder`, `ca_path`,
 * `key_path`, `crl_path`), how `fetch_ca`, `fetch_crl` and `sign_csr`
 * choose between the root CA and a per-project CA, and how the serial
 * number is read from `openssl x509 -serial` output in `_sign_csr`.
 * The file system is a map from path to file content.
 */
module CryptoCa {
  import opened Wrappers
  import Text

  /** The options `ca_path`, `ca_file`, `key_file`, `crl_file` and
      `use_project_ca`. */
  datatype Config = Config(
    caPath: string,
    caFile: string,
    keyFile: string,
    crlFile: string,
    useProjectCa: bool)

  /** A project id as Python sees it: `None`, or a string, which is false
      when empty. */
  predicate Truthy(projectId: Option<string>) {
    projectId.Some? && projectId.value != ""
  }

  /** `os.path.join(a, b)` on POSIX: an absolute `b` replaces `a`; otherwise a
      slash is put between them unless `a` is empty or already ends in one. */
  function Join(a: string, b: string): (r: string)
    ensures b != [] && b[0] == '/' ==> r == b
    ensures (b == [] || b[0] != '/') ==> |r| >= |a| + |b| && r[..|a|] == a && r[|r| - |b|..] == b
  {
    if b != [] && b[0] == '/' then b
    else if a == [] || a[|a| - 1] == '/' then a + b
    else a + "/" + b
  }

  predicate Relative(p: string) {
    p == [] || p[0] != '/'
  }

  /** Joining one folder with two different relative names gives two
      different paths. */
  lemma JoinInjective(a: string, p: string, q: string)
    requires Relative(p) && Relative(q) && Join(a, p) == Join(a, q)
    ensures p == q
  {
    var r := Join(a, p);
    assert |Join(a, p)| - |p| == |Join(a, q)| - |q|;
    assert r[|r| - |p|..] == p && r[|r| - |q|..] == q;
  }

  /** `ca_folder(project_id)`. */
  function CaFolder(config: Config, projectId: Option<string>): string {
    if config.useProjectCa && Truthy(projectId) then
      Join(Join(config.caPath, "projects"), projectId.value)
    else config.caPath
  }

  function CaFile(config: Config, projectId: Option<string>): string {
    Join(CaFolder(config, projectId), config.caFile)
  }

  function KeyFile(config: Config, projectId: Option<string>): string {
    Join(CaFolder(config, projectId), config.keyFile)
  }

  function CrlFile(config: Config, projectId: Option<string>): string {
    Join(CaFolder(config, projectId), config.crlFile)
  }

  /** The folder of a project is `<ca_path>/projects/<project_id>` when the
      project CA is on and the id is a non-empty relative name; otherwise it is
      the root `ca_path`. */
  lemma CaFolderChoice(config: Config, projectId: Option<string>)
    ensures !(config.useProjectCa && Truthy(projectId)) ==> CaFolder(config, projectId) == config.caPath
    ensures config.useProjectCa && Truthy(projectId) && projectId.value[0] != '/'
            && config.caPath != [] && config.caPath[|config.caPath| - 1] != '/'
        ==> CaFolder(config, projectId) == config.caPath + "/projects/" + projectId.value
  {
    if config.useProjectCa && Truthy(projectId) && config.caPath != [] && config.caPath[|config.caPath| - 1] != '/' {
      var base := Join(config.caPath, "projects");
      assert base == config.caPath + "/projects";
      assert base[|base| - 1] == 's';
    }
  }

  /** Each project with a relative id gets its own folder, distinct from the
      root folder and from the folder of every other project. */
  lemma ProjectFoldersDistinct(config: Config, p: string, q: string)
    requires config.useProjectCa && p != [] && q != [] && p[0] != '/' && q[0] != '/'
    ensures CaFolder(config, Some(p)) != config.caPath
    ensures p != q ==> CaFolder(config, Some(p)) != CaFolder(config, Some(q))
  {
    var base := Join(config.caPath, "projects");
    assert |base| >= |config.caPath| + 8;
    if p != q && CaFolder(config, Some(p)) == CaFolder(config, Some(q)) {
      JoinInjective(base, p, q);
    }
  }

  /** `ca_path`, `key_path` and `crl_path` are the folder joined with the
      configured file name, so each sits inside the folder. */
  lemma FilesInFolder(config: Config, projectId: Option<string>)
    requires Relative(config.caFile) && Relative(config.keyFile) && Relative(config.crlFile)
    ensures var folder := CaFolder(config, projectId);
      CaFile(config, projectId)[..|folder|] == folder
      && KeyFile(config, projectId)[..|folder|] == folder
      && CrlFile(config, projectId)[..|folder|] == folder
  {
  }

  // ---------------------------------------------------------------------
  // fetch_ca and fetch_crl

  datatype CaError =
    | CryptoCaFileNotFound(project: Option<string>)
    | CryptoCrlFileNotFound(project: Option<string>)

  /** The project id after `if not CONF.use_project_ca: project_id = None`. */
  function EffectiveProject(config: Config, projectId: Option<string>): Option<string> {
    if config.useProjectCa then projectId else None
  }

  function FetchCa(config: Config, projectId: Option<string>, files: map<string, string>): Result<string, CaError> {
    var p := EffectiveProject(config, projectId);
    var path := CaFile(config, p);
    if path in files then Ok(files[path]) else Err(CryptoCaFileNotFound(p))
  }

  function FetchCrl(config: Config, projectId: Option<string>, files: map<string, string>): Result<string, CaError> {
    var p := EffectiveProject(config, projectId);
    var path := CrlFile(config, p);
    if path in files then Ok(files[path]) else Err(CryptoCrlFileNotFound(p))
  }

  /** With the project CA off, the project id makes no difference, and a
      missing file is reported without one. */
  lemma FetchIgnoresProjectWhenOff(config: Config, projectId: Option<string>, files: map<string, string>)
    requires !config.useProjectCa
    ensures FetchCa(config, projectId, files) == FetchCa(config, None, files)
    ensures FetchCrl(config, projectId, files) == FetchCrl(config, None, files)
    ensures FetchCa(config, projectId, files).Err? ==> FetchCa(config, projectId, files).error == CryptoCaFileNotFound(None)
    ensures FetchCrl(config, projectId, files).Err? ==> FetchCrl(config, projectId, files).error == CryptoCrlFileNotFound(None)
  {
  }

  /** The CA (CRL) is read from the file `ca_path` (`crl_path`) names for the
      effective project; exactly when that file is missing the fetch raises
      `CryptoCAFileNotFound` (`CryptoCRLFileNotFound`) for that project. */
  lemma FetchReadsTheNamedFile(config: Config, projectId: Option<string>, files: map<string, string>)
    ensures var p := EffectiveProject(config, projectId);
      (FetchCa(config, projectId, files).Ok? <==> CaFile(config, p) in files)
      && (FetchCa(config, projectId, files).Ok? ==> FetchCa(config, projectId, files).value == files[CaFile(config, p)])
      && (FetchCrl(config, projectId, files).Ok? <==> CrlFile(config, p) in files)
      && (FetchCrl(config, projectId, files).Ok? ==> FetchCrl(config, projectId, files).value == files[CrlFile(config, p)])
      && (FetchCa(config, projectId, files).Err? ==> FetchCa(config, projectId, files).error == CryptoCaFileNotFound(p))
      && (FetchCrl(config, projectId, files).Err? ==> FetchCrl(config, projectId, files).error == CryptoCrlFileNotFound(p))
  {
  }

  // ---------------------------------------------------------------------
  // sign_csr and _sign_csr

  /** The folder `sign_csr` signs in, and the project whose folder it makes
      sure of first (`_ensure_project_folder`), if any. */
  datatype SignPlan = SignPlan(ensureProject: Option<string>, folder: string)

  function SignCsrPlan(config: Config, projectId: Option<string>): SignPlan {
    var p := EffectiveProject(config, projectId);
    if !Truthy(p) then SignPlan(None, CaFolder(config, None))
    else SignPlan(p, CaFolder(config, p))
  }

  /** `sign_csr` signs in `ca_folder(project_id)`, the root folder whenever the
      project CA is off or the id is empty, and prepares a project folder
      exactly when it signs in one. */
  lemma SignCsrFolder(config: Config, projectId: Option<string>)
    ensures SignCsrPlan(config, projectId).folder == CaFolder(config, projectId)
    ensures SignCsrPlan(config, projectId).ensureProject.Some?
        <==> config.useProjectCa && Truthy(projectId)
    ensures !(config.useProjectCa && Truthy(projectId)) ==> SignCsrPlan(config, projectId).folder == config.caPath
  {
  }

  /** The serial number `_sign_csr` returns beside the certificate: the text
      after the last `=` of the `openssl x509 -serial` output, stripped. */
  function Serial(out: string): (serial: string)
    ensures '=' !in serial
    ensures serial == [] || (!Text.IsSpace(serial[0]) && !Text.IsSpace(serial[|serial| - 1]))
  {
    var after := Text.AfterLast(out, '=');
    Text.StripKeepsOut(after, '=');
    Text.Strip(after)
  }

  /** For output `serial=<digits>` and a trailing line break, the serial is
      the digits. */
  lemma SerialOfOutput(key: string, digits: string, pad: string)
    requires '=' !in digits && Text.NoSpace(digits)
    requires '=' !in pad && Text.AllSpace(pad)
    ensures Serial(key + "=" + digits + pad) == digits
  {
    assert forall c :: c in digits + pad ==> c in digits || c in pad;
    assert key + "=" + digits + pad == key + ['='] + (digits + pad);
    Text.AfterLastAppend(key, '=', digits + pad);
    Text.StripPadded(digits, pad);
  }
}
