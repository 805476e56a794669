/** The paths of a release bundle: a fixed list for each unit and one path for each contract schema.

    A path is kept in pieces, its directories and the dotted pieces of its file name; what the archive holds is its
    text. */
module BundlePaths {
  import opened SequenceFacts
  import opened Sorting
  import opened ContractManifest

  datatype Unit = FinDb | Fetcher

  datatype Path = Path(dirs: seq<string>, file: seq<string>)

  function DirText(dirs: seq<string>): string {
    if dirs == [] then "" else dirs[0] + "/" + DirText(dirs[1..])
  }

  function FileText(pieces: seq<string>): string {
    if pieces == [] then "" else if |pieces| == 1 then pieces[0] else pieces[0] + "." + FileText(pieces[1..])
  }

  function Text(p: Path): string { DirText(p.dirs) + FileText(p.file) }

  // ----- The tests that the source makes on a text -----

  /** The parts between the slashes; one empty part for the empty text. */
  function Components(s: string): (parts: seq<string>)
    ensures parts != []
    decreases |s|
  {
    IndexOfIs(s, '/');
    var k := IndexOf(s, '/');
    if k == |s| then [s] else [s[..k]] + Components(s[k + 1..])
  }

  predicate SafeRelative(s: string) {
    && s != "" && s[0] != '/' && '\\' !in s
    && forall part :: part in Components(s) ==> part != "" && part != "." && part != ".."
  }

  // ----- Well-formed paths -----

  predicate IsWordChar(c: char) { 'a' <= c <= 'z' || IsDigit(c) || c == '_' || c == '-' }

  predicate Word(s: string) {
    s != "" && forall i :: 0 <= i < |s| ==> IsWordChar(s[i])
  }

  predicate WellFormed(p: Path) {
    && |p.file| >= 2
    && (forall i :: 0 <= i < |p.dirs| ==> Word(p.dirs[i]))
    && (forall i :: 0 <= i < |p.file| ==> Word(p.file[i]))
  }

  /** The text of some well-formed path. */
  ghost predicate NamesAPath(name: string) { exists p :: WellFormed(p) && Text(p) == name }

  predicate Words(s: seq<string>) { forall i :: 0 <= i < |s| ==> Word(s[i]) }

  lemma {:induction false} FileTextIsOneComponent(pieces: seq<string>)
    requires pieces != [] && Words(pieces)
    ensures FileText(pieces) != "" && FileText(pieces)[0] != '.'
    ensures forall i :: 0 <= i < |FileText(pieces)| ==> FileText(pieces)[i] != '/' && FileText(pieces)[i] != '\\'
    ensures |pieces| >= 2 ==> '.' in FileText(pieces)
  {
    if |pieces| > 1 {
      FileTextIsOneComponent(pieces[1..]);
      assert FileText(pieces)[|pieces[0]|] == '.';
    }
  }

  lemma SplitAtFirst(word: string, c: char, rest: string)
    requires c !in word
    ensures IndexOf(word + [c] + rest, c) == |word|
    ensures (word + [c] + rest)[..|word|] == word && (word + [c] + rest)[|word| + 1..] == rest
  {
    var s := word + [c] + rest;
    IndexOfIs(s, c);
    assert s[|word|] == c;
    assert forall i :: 0 <= i < |word| ==> s[i] == word[i] && word[i] in word;
  }

  lemma NoSeparator(s: string, c: char)
    requires c !in s
    ensures IndexOf(s, c) == |s|
  {
    IndexOfIs(s, c);
    assert forall i :: 0 <= i < |s| ==> s[i] in s;
  }

  lemma ComponentsOfFile(file: string)
    requires '/' !in file
    ensures Components(file) == [file]
  {
    NoSeparator(file, '/');
  }

  lemma ComponentsAfterWord(word: string, rest: string)
    requires '/' !in word
    ensures Components(word + "/" + rest) == [word] + Components(rest)
  {
    SplitAtFirst(word, '/', rest);
    assert word + ['/'] + rest == word + "/" + rest;
  }

  /** Splitting the text at its slashes gives the directories and the file back. */
  lemma {:induction false} ComponentsOfText(p: Path)
    requires WellFormed(p)
    ensures Components(Text(p)) == p.dirs + [FileText(p.file)]
    decreases |p.dirs|
  {
    FileTextIsOneComponent(p.file);
    if p.dirs == [] {
      ComponentsOfFile(FileText(p.file));
      assert Text(p) == FileText(p.file);
    } else {
      var rest := Path(p.dirs[1..], p.file);
      ComponentsOfText(rest);
      assert Word(p.dirs[0]);
      ComponentsAfterWord(p.dirs[0], Text(rest));
      Regroup(p.dirs[0] + "/", DirText(p.dirs[1..]), FileText(p.file));
      assert p.dirs == [p.dirs[0]] + p.dirs[1..];
      Regroup([p.dirs[0]], p.dirs[1..], [FileText(p.file)]);
    }
  }

  lemma {:induction false} DirTextIsPlain(dirs: seq<string>)
    requires Words(dirs)
    ensures '\\' !in DirText(dirs)
    ensures dirs != [] ==> DirText(dirs) != "" && DirText(dirs)[0] == dirs[0][0]
  {
    if dirs != [] {
      DirTextIsPlain(dirs[1..]);
      assert '\\' !in dirs[0];
    }
  }

  /** The text of a well-formed path passes the source's safety test. */
  lemma TextIsSafe(p: Path)
    requires WellFormed(p)
    ensures SafeRelative(Text(p))
  {
    ComponentsOfText(p);
    FileTextIsOneComponent(p.file);
    DirTextIsPlain(p.dirs);
    forall part | part in p.dirs + [FileText(p.file)] ensures part != "" && part[0] != '.' {
      if part in p.dirs {
        var i :| 0 <= i < |p.dirs| && p.dirs[i] == part;
        assert Word(p.dirs[i]);
      }
    }
    assert p.dirs != [] ==> Word(p.dirs[0]);
  }

  lemma {:induction false} FileTextIsInjective(a: seq<string>, b: seq<string>)
    requires a != [] && b != [] && Words(a) && Words(b) && FileText(a) == FileText(b)
    ensures a == b
  {
    FirstPiece(a);
    FirstPiece(b);
    if |a| > 1 && |b| > 1 {
      FileTextIsInjective(a[1..], b[1..]);
      assert a == [a[0]] + a[1..] && b == [b[0]] + b[1..];
    }
  }

  lemma FirstPiece(a: seq<string>)
    requires a != [] && Words(a)
    ensures |a| == 1 ==> IndexOf(FileText(a), '.') == |FileText(a)| && FileText(a) == a[0]
    ensures |a| > 1 ==>
      IndexOf(FileText(a), '.') == |a[0]| < |FileText(a)|
      && FileText(a)[..|a[0]|] == a[0] && FileText(a)[|a[0]| + 1..] == FileText(a[1..])
  {
    assert Word(a[0]);
    if |a| == 1 {
      NoSeparator(a[0], '.');
    } else {
      SplitAtFirst(a[0], '.', FileText(a[1..]));
      assert FileText(a) == a[0] + ['.'] + FileText(a[1..]);
    }
  }

  /** Different paths have different texts. */
  lemma TextIsInjective(p: Path, q: Path)
    requires WellFormed(p) && WellFormed(q)
    ensures Text(p) == Text(q) <==> p == q
  {
    if Text(p) == Text(q) {
      ComponentsOfText(p);
      ComponentsOfText(q);
      var a, b := p.dirs + [FileText(p.file)], q.dirs + [FileText(q.file)];
      assert a[..|a| - 1] == p.dirs && b[..|b| - 1] == q.dirs && a[|a| - 1] == b[|b| - 1];
      FileTextIsInjective(p.file, q.file);
    }
  }

  lemma SplitFirst(a: string)
    requires '/' in a
    ensures var k := IndexOf(a, '/');
            k < |a| && '/' !in a[..k] && a == a[..k] + "/" + a[k + 1..]
            && Components(a) == [a[..k]] + Components(a[k + 1..])
  {
    IndexOfIs(a, '/');
    var i :| 0 <= i < |a| && a[i] == '/';
    Cut(a, IndexOf(a, '/'));
  }

  lemma Cut(a: string, k: nat)
    requires k < |a| && a[k] == '/' && forall i :: 0 <= i < k ==> a[i] != '/'
    ensures '/' !in a[..k] && a == a[..k] + "/" + a[k + 1..]
  {
  }

  lemma {:induction false} ComponentsOfJoin(a: string, r: string)
    ensures Components(a + "/" + r) == Components(a) + Components(r)
    decreases |a|
  {
    if '/' in a {
      SplitFirst(a);
      var k := IndexOf(a, '/');
      var word, rest := a[..k], a[k + 1..];
      ComponentsOfJoin(rest, r);
      ComponentsAfterWord(word, rest + "/" + r);
      JoinedText(word, rest, r);
      Regroup([word], Components(rest), Components(r));
    } else {
      ComponentsOfFile(a);
      ComponentsAfterWord(a, r);
    }
  }

  lemma JoinedText(word: string, rest: string, r: string)
    ensures word + "/" + rest + "/" + r == word + "/" + (rest + "/" + r)
  {
    Regroup(word + "/", rest, "/");
    Regroup(word + "/", rest + "/", r);
  }

  /** No file of a bundle is a directory of another one. */
  lemma NoFileIsADirectory(p: Path, q: Path)
    requires WellFormed(p) && WellFormed(q)
    ensures !(Text(p) + "/" <= Text(q))
  {
    if Text(p) + "/" <= Text(q) {
      var rest := Text(q)[|Text(p)| + 1..];
      assert Text(q) == Text(p) + "/" + rest;
      ComponentsOfJoin(Text(p), rest);
      ComponentsOfText(p);
      ComponentsOfText(q);
      FileTextIsOneComponent(p.file);
      FileIsNoDirectory(p.dirs, FileText(p.file), Components(rest), q.dirs, FileText(q.file));
    }
  }

  lemma FileIsNoDirectory(dirs: seq<string>, file: string, rest: seq<string>, dirs': seq<string>, file': string)
    requires '.' in file && rest != [] && Words(dirs')
    ensures dirs + [file] + rest != dirs' + [file']
  {
    var k := |dirs|;
    assert (dirs + [file] + rest)[k] == file;
    if k < |dirs'| {
      assert Word(dirs'[k]) && (dirs' + [file'])[k] == dirs'[k];
    }
  }

  // ----- The fixed files -----

  const BUNDLE_MANIFEST := Path([], ["release-manifest", "json"])
  const CONTRACTS_MANIFEST := Path(["contracts"], ["manifest", "json"])

  const SECRETS: seq<string> := ["infra", "deploy", "runtime-secrets"]

  const COMMON_FILES: seq<Path> := [
    CONTRACTS_MANIFEST,
    Path(SECRETS, ["load_runtime_secrets", "py"]),
    Path(SECRETS, ["runtime_secret_command", "sh"]),
    Path(["infra", "deploy"], ["release_manifest", "py"])]

  const FINDB_FILES: seq<Path> := [
    Path([], ["docker-compose", "prod", "yml"]),
    Path(["infra", "nginx"], ["cloudflare-real-ip", "conf"]),
    Path(["infra", "nginx"], ["nginx", "conf"]),
    Path(["infra", "nginx"], ["source-allowlist", "conf"]),
    Path(["backend", "scripts"], ["render_nginx_cloudflare_real_ip", "py"]),
    Path(["backend", "scripts"], ["render_nginx_public_host", "py"]),
    Path(["backend", "scripts"], ["render_nginx_source_allowlist", "py"]),
    Path(SECRETS, ["deploy_findb_aws", "sh"]),
    Path(SECRETS, ["findb", "json"]),
    Path(SECRETS, ["install_findb_bootstrap", "sh"]),
    Path(SECRETS, ["render_nginx_runtime", "sh"]),
    Path(SECRETS, ["render_serve_key", "py"])]

  const DEPLOY_FETCHER := Path(SECRETS, ["deploy_fetcher_aws", "sh"])

  const FETCHER_FILES: seq<Path> := [
    Path(["infra", "deploy"], ["inspect_full_market_installation", "py"]),
    Path(["fetcher", "configs"], ["full_market", "local", "v1", "json"]),
    Path(["fetcher", "configs"], ["full_market", "staging", "v1", "json"]),
    Path(["fetcher", "configs"], ["full_market", "production", "v1", "json"]),
    DEPLOY_FETCHER,
    Path(SECRETS, ["fetcher", "json"]),
    Path(SECRETS, ["release_fetcher_provider", "sh"]),
    Path(["fetcher"], ["pyproject", "toml"])]

  function FixedFiles(unit: Unit): seq<Path> {
    COMMON_FILES + match unit case FinDb => FINDB_FILES case Fetcher => FETCHER_FILES
  }

  predicate AllWellFormed(paths: seq<Path>) { forall i :: 0 <= i < |paths| ==> WellFormed(paths[i]) }

  lemma DirectoriesAreWords()
    ensures Words(SECRETS) && Words(["infra", "deploy"]) && Words(["contracts"])
    ensures Words(["infra", "nginx"]) && Words(["backend", "scripts"]) && Words(["fetcher", "configs"])
  {
    assert Word("runtime-secrets");
  }

  lemma SuffixesAreWords()
    ensures Word("json") && Word("py") && Word("sh") && Word("yml") && Word("conf") && Word("toml") && Word("v1")
    ensures Word("prod") && Word("local") && Word("staging") && Word("production")
  {
  }

  lemma CommonFilesAreWellFormed()
    ensures AllWellFormed(COMMON_FILES) && WellFormed(BUNDLE_MANIFEST)
  {
    DirectoriesAreWords();
    SuffixesAreWords();
    CommonStems();
  }

  lemma CommonStems()
    ensures Word("manifest") && Word("load_runtime_secrets") && Word("runtime_secret_command")
    ensures Word("release_manifest") && Word("release-manifest")
  {
  }

  lemma FinDbFilesAreWellFormed()
    ensures AllWellFormed(FINDB_FILES)
  {
    DirectoriesAreWords();
    SuffixesAreWords();
    FinDbStems();
    FinDbTools();
  }

  lemma FinDbStems()
    ensures Word("docker-compose") && Word("cloudflare-real-ip") && Word("source-allowlist") && Word("nginx")
    ensures Word("render_nginx_cloudflare_real_ip") && Word("render_nginx_public_host") && Word("findb")
  {
  }

  lemma FinDbTools()
    ensures Word("render_nginx_source_allowlist") && Word("deploy_findb_aws") && Word("install_findb_bootstrap")
    ensures Word("render_nginx_runtime") && Word("render_serve_key")
  {
  }

  lemma FetcherFilesAreWellFormed()
    ensures AllWellFormed(FETCHER_FILES)
  {
    DirectoriesAreWords();
    SuffixesAreWords();
    FetcherStems();
  }

  lemma FetcherStems()
    ensures Word("inspect_full_market_installation") && Word("full_market") && Word("deploy_fetcher_aws")
    ensures Word("release_fetcher_provider") && Word("pyproject") && Word("fetcher")
  {
  }

  // ----- Distinct paths -----

  /** The letters that tell the fixed paths apart: the initial of the innermost directory, the first and the third last
      letter of the file's first piece, and the initial of its second piece. */
  datatype Letters = Letters(dir: char, first: char, late: char, next: char)

  predicate Spells(p: Path, l: Letters) {
    && |p.file| > 1 && |p.file[0]| > 2 && p.file[1] != "" && (p.dirs != [] ==> p.dirs[|p.dirs| - 1] != "")
    && l.dir == (if p.dirs == [] then '.' else p.dirs[|p.dirs| - 1][0])
    && l.first == p.file[0][0] && l.late == p.file[0][|p.file[0]| - 3] && l.next == p.file[1][0]
  }

  const COMMON_LETTERS: seq<Letters> := [
    Letters('c', 'm', 'e', 'j'), Letters('r', 'l', 'e', 'p'), Letters('r', 'r', 'a', 's'),
    Letters('d', 'r', 'e', 'p')]
  const FINDB_LETTERS: seq<Letters> := [
    Letters('.', 'd', 'o', 'p'), Letters('n', 'c', '-', 'c'), Letters('n', 'n', 'i', 'c'),
    Letters('n', 's', 'i', 'c'), Letters('s', 'r', '_', 'p'), Letters('s', 'r', 'o', 'p'),
    Letters('s', 'r', 'i', 'p'), Letters('r', 'd', 'a', 's'), Letters('r', 'f', 'n', 'j'),
    Letters('r', 'i', 'r', 's'), Letters('r', 'r', 'i', 's'), Letters('r', 'r', 'k', 'p')]
  const FETCHER_LETTERS: seq<Letters> := [
    Letters('d', 'i', 'i', 'p'), Letters('c', 'f', 'k', 'l'), Letters('c', 'f', 'k', 's'),
    Letters('c', 'f', 'k', 'p'), Letters('r', 'd', 'a', 's'), Letters('r', 'f', 'h', 'j'),
    Letters('r', 'r', 'd', 's'), Letters('f', 'p', 'e', 't')]

  predicate AllSpell(paths: seq<Path>, letters: seq<Letters>) {
    |paths| == |letters| && forall i :: 0 <= i < |paths| ==> Spells(paths[i], letters[i])
  }

  lemma CommonLetters()
    ensures AllSpell(COMMON_FILES, COMMON_LETTERS)
  {
  }

  lemma FinDbLetters()
    ensures AllSpell(FINDB_FILES, FINDB_LETTERS)
  {
  }

  lemma FetcherLetters()
    ensures AllSpell(FETCHER_FILES, FETCHER_LETTERS)
  {
  }

  lemma LettersAreDistinct()
    ensures Distinct(COMMON_LETTERS + FINDB_LETTERS) && Distinct(COMMON_LETTERS + FETCHER_LETTERS)
  {
  }

  lemma FixedFilesFacts(unit: Unit)
    ensures AllWellFormed(FixedFiles(unit)) && WellFormed(BUNDLE_MANIFEST)
    ensures Distinct(FixedFiles(unit))
  {
    CommonFilesAreWellFormed();
    CommonLetters();
    LettersAreDistinct();
    if unit.FinDb? {
      FinDbFilesAreWellFormed();
      FinDbLetters();
      LettersSeparate(COMMON_FILES + FINDB_FILES, COMMON_LETTERS + FINDB_LETTERS);
    } else {
      FetcherFilesAreWellFormed();
      FetcherLetters();
      LettersSeparate(COMMON_FILES + FETCHER_FILES, COMMON_LETTERS + FETCHER_LETTERS);
    }
  }

  lemma LettersSeparate(paths: seq<Path>, letters: seq<Letters>)
    requires AllSpell(paths, letters) && Distinct(letters)
    ensures Distinct(paths)
  {
  }

  // ----- Schema paths -----

  function PathOf(c: Contract): Path
    requires c.version >= 0
  {
    Path(["contracts", c.schemaId], ["v" + Decimal(c.version), "schema", "json"])
  }

  function SchemaName(c: Contract): string { "contracts/" + c.path }

  lemma DigitsAreAWord(n: nat)
    ensures Word("v" + Decimal(n))
  {
    DecimalIsNumeral(n);
    assert forall i :: 0 <= i < |Decimal(n)| ==> ("v" + Decimal(n))[i + 1] == Decimal(n)[i] && IsDigit(Decimal(n)[i]);
  }

  lemma IdIsAWord(id: string)
    requires ValidId(id)
    ensures Word(id)
  {
    assert forall i :: 0 <= i < |id| ==> IsIdChar(id[i]);
  }

  lemma SchemaPathIsWellFormed(c: Contract)
    requires EntryOk(c)
    ensures WellFormed(PathOf(c))
  {
    IdIsAWord(c.schemaId);
    DigitsAreAWord(c.version);
    assert Word("contracts") && Word("schema") && Word("json");
  }

  /** The name that the source builds from an accepted entry is the text of its path. */
  lemma SchemaNameIsText(c: Contract)
    requires EntryOk(c)
    ensures SchemaName(c) == Text(PathOf(c))
  {
    PrintParsed(c.path);
    var stem := "v" + Decimal(c.version);
    TwoDirs("contracts", c.schemaId);
    ThreePieces(stem, "schema", "json");
    FrameText(c.schemaId, Decimal(c.version));
  }

  lemma TwoDirs(a: string, b: string)
    ensures DirText([a, b]) == a + "/" + (b + "/")
  {
    assert [a, b][1..] == [b] && [b][1..] == [];
    assert DirText([b]) == b + "/";
  }

  lemma ThreePieces(a: string, b: string, c: string)
    ensures FileText([a, b, c]) == a + "." + (b + "." + c)
  {
    assert [a, b, c][1..] == [b, c] && [b, c][1..] == [c];
    assert FileText([b, c]) == b + "." + c;
  }

  lemma FrameText(id: string, digits: string)
    ensures "contracts/" + (id + "/v" + digits + ".schema.json")
         == "contracts" + "/" + (id + "/") + ("v" + digits + "." + ("schema" + "." + "json"))
  {
    assert "/v" == "/" + "v" && "contracts/" == "contracts" + "/";
    assert ".schema.json" == "." + ("schema" + "." + "json");
    Frame("contracts/", id, "/", "v", digits, ".schema.json");
  }

  lemma Frame<T>(a: seq<T>, b: seq<T>, c: seq<T>, d: seq<T>, e: seq<T>, f: seq<T>)
    ensures a + (b + (c + d) + e + f) == a + (b + c) + (d + e + f)
  {
  }

  /** Schema paths of different identities differ, and none is a fixed path. */
  lemma SchemaPathsAreSeparate(a: Contract, b: Contract)
    requires EntryOk(a) && EntryOk(b) && PathOf(a) == PathOf(b)
    ensures a.schemaId == b.schemaId && a.version == b.version
  {
    var p, q := PathOf(a), PathOf(b);
    assert p.dirs[1] == q.dirs[1] && p.file[0] == q.file[0];
    assert p.file[0][1..] == Decimal(a.version) && q.file[0][1..] == Decimal(b.version);
    DecimalIsNumeral(a.version);
    DecimalIsNumeral(b.version);
  }

  /** Two directories, of which the first has the length of "contracts": no fixed path looks like that. */
  predicate LooksLikeSchema(p: Path) { |p.dirs| == 2 && |p.dirs[0]| == 9 }

  lemma FixedFilesAreNoSchemas(unit: Unit)
    ensures forall i :: 0 <= i < |FixedFiles(unit)| ==> !LooksLikeSchema(FixedFiles(unit)[i])
    ensures forall i :: 0 <= i < |FixedFiles(unit)| ==> FixedFiles(unit)[i] != BUNDLE_MANIFEST
  {
    assert forall i :: 0 <= i < |COMMON_FILES| ==> !LooksLikeSchema(COMMON_FILES[i]) && COMMON_FILES[i] != BUNDLE_MANIFEST;
    assert forall i :: 0 <= i < |FINDB_FILES| ==> !LooksLikeSchema(FINDB_FILES[i]) && FINDB_FILES[i] != BUNDLE_MANIFEST;
    assert forall i :: 0 <= i < |FETCHER_FILES| ==> !LooksLikeSchema(FETCHER_FILES[i]) && FETCHER_FILES[i] != BUNDLE_MANIFEST;
  }

  // ----- The names of a bundle -----

  function Texts(paths: seq<Path>): (names: seq<string>)
    ensures |names| == |paths|
  {
    seq(|paths|, i requires 0 <= i < |paths| => Text(paths[i]))
  }

  function SchemaNames(contracts: seq<Contract>): (names: seq<string>)
    ensures |names| == |contracts|
  {
    seq(|contracts|, i requires 0 <= i < |contracts| => SchemaName(contracts[i]))
  }

  function FixedNames(unit: Unit): seq<string> { Texts(FixedFiles(unit)) }

  /** Every name of a bundle but the release manifest's. */
  function Names(unit: Unit, contracts: seq<Contract>): seq<string> {
    FixedNames(unit) + SchemaNames(contracts)
  }

  const MANIFEST_NAME: string := Text(BUNDLE_MANIFEST)
  const CONTRACTS_NAME: string := Text(CONTRACTS_MANIFEST)

  function SchemaPaths(contracts: seq<Contract>): (paths: seq<Path>)
    requires AllOk(contracts)
    ensures |paths| == |contracts|
  {
    seq(|contracts|, i requires 0 <= i < |contracts| => assert contracts[i] in contracts; PathOf(contracts[i]))
  }

  /** All paths of a bundle, the release manifest first. */
  function Paths(unit: Unit, contracts: seq<Contract>): seq<Path>
    requires AllOk(contracts)
  {
    [BUNDLE_MANIFEST] + FixedFiles(unit) + SchemaPaths(contracts)
  }

  lemma SchemaPathFacts(contracts: seq<Contract>)
    requires Acceptable(contracts)
    ensures AllWellFormed(SchemaPaths(contracts)) && Distinct(SchemaPaths(contracts))
    ensures forall i :: 0 <= i < |contracts| ==> LooksLikeSchema(SchemaPaths(contracts)[i])
    ensures Texts(SchemaPaths(contracts)) == SchemaNames(contracts)
  {
    var paths := SchemaPaths(contracts);
    forall i | 0 <= i < |contracts|
      ensures WellFormed(paths[i]) && LooksLikeSchema(paths[i]) && Text(paths[i]) == SchemaName(contracts[i])
    {
      assert contracts[i] in contracts;
      SchemaPathIsWellFormed(contracts[i]);
      SchemaNameIsText(contracts[i]);
    }
    forall i, j | 0 <= i < j < |contracts| ensures paths[i] != paths[j] {
      assert contracts[i] in contracts && contracts[j] in contracts;
      if paths[i] == paths[j] {
        SchemaPathsAreSeparate(contracts[i], contracts[j]);
      }
    }
  }

  lemma PathsFacts(unit: Unit, contracts: seq<Contract>)
    requires Acceptable(contracts)
    ensures AllWellFormed(Paths(unit, contracts)) && Distinct(Paths(unit, contracts))
    ensures Texts(Paths(unit, contracts)) == [MANIFEST_NAME] + Names(unit, contracts)
  {
    FixedFilesFacts(unit);
    FixedFilesAreNoSchemas(unit);
    SchemaPathFacts(contracts);
    JoinedDistinct([BUNDLE_MANIFEST], FixedFiles(unit));
    JoinedDistinct([BUNDLE_MANIFEST] + FixedFiles(unit), SchemaPaths(contracts));
    TextsOfPaths(BUNDLE_MANIFEST, FixedFiles(unit), SchemaPaths(contracts));
  }

  lemma TextsOfPaths(head: Path, a: seq<Path>, b: seq<Path>)
    ensures Texts([head] + a + b) == [Text(head)] + (Texts(a) + Texts(b))
  {
  }

  lemma JoinedDistinct(a: seq<Path>, b: seq<Path>)
    requires Distinct(a) && Distinct(b)
    requires forall i, j :: 0 <= i < |a| && 0 <= j < |b| ==> a[i] != b[j]
    ensures Distinct(a + b)
  {
  }

  ghost predicate NoClash(names: seq<string>) {
    forall a, b :: a in names && b in names ==> !(a + "/" <= b)
  }

  /** The names of a bundle are pairwise different and safe, and no file sits where another one needs a directory. */
  lemma NamesFacts(unit: Unit, contracts: seq<Contract>)
    requires Acceptable(contracts)
    ensures var names := [MANIFEST_NAME] + Names(unit, contracts);
            Distinct(names) && NoClash(names)
            && (forall name :: name in names ==> SafeRelative(name) && NamesAPath(name))
    ensures CONTRACTS_NAME in Names(unit, contracts)
  {
    var paths := Paths(unit, contracts);
    var names := Texts(paths);
    PathsFacts(unit, contracts);
    forall i, j | 0 <= i < j < |names| ensures names[i] != names[j] {
      TextIsInjective(paths[i], paths[j]);
    }
    forall a, b | a in names && b in names ensures !(a + "/" <= b) {
      var i :| 0 <= i < |names| && names[i] == a;
      var j :| 0 <= j < |names| && names[j] == b;
      NoFileIsADirectory(paths[i], paths[j]);
    }
    forall name | name in names ensures SafeRelative(name) && NamesAPath(name) {
      var i :| 0 <= i < |names| && names[i] == name;
      TextIsSafe(paths[i]);
    }
    assert FixedFiles(unit)[0] == CONTRACTS_MANIFEST;
    assert Names(unit, contracts)[0] == CONTRACTS_NAME;
  }

  // ----- Modes -----

  const EXECUTABLE_FILES: seq<Path> := [
    Path(["infra", "deploy"], ["release_manifest", "py"]),
    Path(SECRETS, ["load_runtime_secrets", "py"]),
    Path(SECRETS, ["runtime_secret_command", "sh"]),
    Path(["backend", "scripts"], ["render_nginx_cloudflare_real_ip", "py"]),
    Path(["backend", "scripts"], ["render_nginx_public_host", "py"]),
    Path(["backend", "scripts"], ["render_nginx_source_allowlist", "py"]),
    Path(SECRETS, ["deploy_findb_aws", "sh"]),
    DEPLOY_FETCHER,
    Path(SECRETS, ["install_findb_bootstrap", "sh"]),
    Path(SECRETS, ["render_nginx_runtime", "sh"]),
    Path(SECRETS, ["render_serve_key", "py"]),
    Path(SECRETS, ["release_fetcher_provider", "sh"])]

  const EXECUTABLE_MODE: nat := 493
  const DATA_MODE: nat := 420

  /** The one canonical mode of a member: 0755 for the listed tools, 0644 for everything else. */
  function FileMode(name: string): nat {
    if name in Texts(EXECUTABLE_FILES) then EXECUTABLE_MODE else DATA_MODE
  }

  // ----- Which files are executable -----

  function Suffix(p: Path): string
    requires p.file != []
  {
    p.file[|p.file| - 1]
  }

  /** A program, but for the one that is only ever imported. */
  predicate IsTool(p: Path) {
    && p.file != [] && (Suffix(p) == "sh" || Suffix(p) == "py")
    && p.file[0] != "inspect_full_market_installation"
  }

  lemma ExecutablesAreTools()
    ensures forall i :: 0 <= i < |EXECUTABLE_FILES| ==> WellFormed(EXECUTABLE_FILES[i])
    ensures forall i :: 0 <= i < |EXECUTABLE_FILES| ==> IsTool(EXECUTABLE_FILES[i])
  {
    DirectoriesAreWords();
    SuffixesAreWords();
    CommonStems();
    FinDbStems();
    FinDbTools();
    FetcherStems();
  }

  predicate Executable(p: Path) { exists i :: 0 <= i < |EXECUTABLE_FILES| && EXECUTABLE_FILES[i] == p }

  lemma CommonTools()
    ensures forall i :: 0 <= i < |COMMON_FILES| && IsTool(COMMON_FILES[i]) ==> Executable(COMMON_FILES[i])
  {
    assert COMMON_FILES[1] == EXECUTABLE_FILES[1] && COMMON_FILES[2] == EXECUTABLE_FILES[2];
    assert COMMON_FILES[3] == EXECUTABLE_FILES[0];
  }

  lemma FinDbPrograms()
    ensures forall i :: 0 <= i < |FINDB_FILES| && IsTool(FINDB_FILES[i]) ==> Executable(FINDB_FILES[i])
  {
    assert FINDB_FILES[4] == EXECUTABLE_FILES[3] && FINDB_FILES[5] == EXECUTABLE_FILES[4];
    assert FINDB_FILES[6] == EXECUTABLE_FILES[5] && FINDB_FILES[7] == EXECUTABLE_FILES[6];
    assert FINDB_FILES[9] == EXECUTABLE_FILES[8] && FINDB_FILES[10] == EXECUTABLE_FILES[9];
    assert FINDB_FILES[11] == EXECUTABLE_FILES[10];
  }

  lemma FetcherPrograms()
    ensures forall i :: 0 <= i < |FETCHER_FILES| && IsTool(FETCHER_FILES[i]) ==> Executable(FETCHER_FILES[i])
  {
    assert FETCHER_FILES[4] == EXECUTABLE_FILES[7] && FETCHER_FILES[6] == EXECUTABLE_FILES[11];
  }

  lemma ModeOfPath(p: Path)
    requires WellFormed(p)
    ensures FileMode(Text(p)) == if Executable(p) then 7 * 64 + 5 * 8 + 5 else 6 * 64 + 4 * 8 + 4
  {
    ExecutablesAreTools();
    var texts := Texts(EXECUTABLE_FILES);
    if Executable(p) {
      var i :| 0 <= i < |EXECUTABLE_FILES| && EXECUTABLE_FILES[i] == p;
      assert texts[i] == Text(p);
    }
    if Text(p) in texts {
      var i :| 0 <= i < |texts| && texts[i] == Text(p);
      TextIsInjective(EXECUTABLE_FILES[i], p);
    }
  }

  /** The mode of every file of a bundle: 0755 for the programs, 0644 for everything else, whether fixed or a schema. */
  lemma ModesAre(unit: Unit, contracts: seq<Contract>, i: nat)
    requires Acceptable(contracts) && i < |Paths(unit, contracts)|
    ensures var p := Paths(unit, contracts)[i];
            FileMode(Text(p)) == if IsTool(p) then 7 * 64 + 5 * 8 + 5 else 6 * 64 + 4 * 8 + 4
  {
    var p := Paths(unit, contracts)[i];
    PathsFacts(unit, contracts);
    ModeOfPath(p);
    ExecutablesAreTools();
    ToolsAreExecutable(unit, contracts, i);
  }

  lemma ToolsAreExecutable(unit: Unit, contracts: seq<Contract>, i: nat)
    requires AllOk(contracts) && i < |Paths(unit, contracts)|
    ensures IsTool(Paths(unit, contracts)[i]) ==> Executable(Paths(unit, contracts)[i])
  {
    CommonTools();
    FinDbPrograms();
    FetcherPrograms();
    var n := |FixedFiles(unit)|;
    assert !IsTool(BUNDLE_MANIFEST);
    if i > n {
      assert Paths(unit, contracts)[i] == SchemaPaths(contracts)[i - n - 1];
      assert contracts[i - n - 1] in contracts;
      assert Suffix(Paths(unit, contracts)[i]) == "json";
    } else if i > 0 {
      assert Paths(unit, contracts)[i] == FixedFiles(unit)[i - 1];
    }
  }
}
