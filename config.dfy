/** The bucket's configuration: the `Settings` record, its defaults, and how it is read from
    the environment (`get_settings` with its helpers `_env_int`, `_env_bool`, `_parse_prefixes`). */
module Config {
  import opened Common
  import opened Text

  /** The frozen settings record. The three directory paths it also holds are not modelled. */
  datatype Settings = Settings(
    routePrefix: string,
    allowedMimePrefixes: seq<string>,
    maxUploadBytes: int,
    retentionSeconds: int,
    maxFiles: int,
    host: string,
    port: int,
    reload: bool)

  /** The record's field defaults: a 10 MiB upload cap, TTL and count cap both disabled (0),
      only `image/` content types, local host port 8000, no reload. */
  function DefaultSettings(): (r: Settings)
    ensures r.retentionSeconds == 0 && r.maxFiles == 0
    ensures r.allowedMimePrefixes == ["image/"] && r.maxUploadBytes == 10 * 1024 * 1024
  {
    Settings("s", ["image/"], 10 * 1024 * 1024, 0, 0, "127.0.0.1", 8000, false)
  }

  /** The process environment as `os.getenv` sees it once `.env` is loaded. */
  type Env = map<string, string>

  /** `os.getenv(name, default)`. */
  function GetEnv(env: Env, name: string, default: string): (r: string)
    ensures name in env ==> r == env[name]
    ensures name !in env ==> r == default
  {
    if name in env then env[name] else default
  }

  datatype ConfigError = NotInteger(variable: string)

  /** `_env_int`: the default when the variable is unset, its integer value when it is set to
      one, and a configuration error naming the variable otherwise. */
  function EnvInt(env: Env, name: string, default: int): (r: Result<int, ConfigError>)
    ensures name !in env ==> r == Ok(default)
    ensures name in env ==> (r.Ok? <==> ParseInt(env[name]).Some?)
    ensures r.Ok? && name in env ==> Some(r.value) == ParseInt(env[name])
    ensures r.Err? ==> r.error == NotInteger(name)
  {
    if name !in env then Ok(default)
    else
      match ParseInt(env[name])
      case Some(n) => Ok(n)
      case None => Err(NotInteger(name))
  }

  /** A variable set to the decimal text of `n` reads back as `n`. */
  lemma EnvIntReadsBack(env: Env, name: string, default: int, n: int)
    ensures EnvInt(env[name := ShowInt(n)], name, default) == Ok(n)
  {
    ParseShowInt(n);
  }

  /** A variable whose value holds an ASCII letter is a configuration error. */
  lemma EnvIntRejectsLetters(env: Env, name: string, default: int, i: nat)
    requires name in env && i < |env[name]| && IsLetter(env[name][i])
    ensures EnvInt(env, name, default) == Err(NotInteger(name))
  {
    ParseIntRejectsLetter(env[name], i);
  }

  const TruthyWords: set<string> := {"1", "true", "t", "yes", "y", "on"}

  /** `_env_bool`: the default when unset; otherwise whether the stripped, lower-cased value is
      one of the truthy words. */
  function EnvBool(env: Env, name: string, default: bool): (r: bool)
    ensures name !in env ==> r == default
    ensures name in env ==> (r <==> Lower(Strip(env[name])) in TruthyWords)
  {
    if name !in env then default else Lower(Strip(env[name])) in TruthyWords
  }

  /** The boolean reading ignores letter case. */
  lemma EnvBoolIgnoresCase(env: Env, name: string, default: bool, v: string)
    ensures EnvBool(env[name := v], name, default) == EnvBool(env[name := Lower(v)], name, default)
  {
    StripLower(v);
    LowerIdempotent(Strip(v));
  }

  /** The boolean reading ignores whitespace around the value. */
  lemma EnvBoolIgnoresPadding(env: Env, name: string, default: bool, before: string, v: string, after: string)
    requires AllSpace(before) && AllSpace(after)
    ensures EnvBool(env[name := before + v + after], name, default) == EnvBool(env[name := v], name, default)
  {
    StripPadding(before, v, after);
  }

  /** The tokens that are not empty, in their original order. */
  function NonEmpty(tokens: seq<string>): (r: seq<string>)
    ensures forall i :: 0 <= i < |r| ==> r[i] != "" && r[i] in tokens
    ensures forall t :: t in tokens && t != "" ==> t in r
    decreases |tokens|
  {
    if tokens == [] then []
    else
      var rest := NonEmpty(tokens[1..]);
      assert forall t :: t in tokens[1..] ==> t in tokens;
      if tokens[0] == "" then rest else [tokens[0]] + rest
  }

  /** Dropping empty tokens works piece by piece: it keeps the order and the count of the
      tokens it keeps. */
  lemma {:induction false} NonEmptyConcat(a: seq<string>, b: seq<string>)
    ensures NonEmpty(a + b) == NonEmpty(a) + NonEmpty(b)
    decreases |a|
  {
    if a == [] {
      assert a + b == b;
    } else {
      assert (a + b)[0] == a[0] && (a + b)[1..] == a[1..] + b;
      NonEmptyConcat(a[1..], b);
    }
  }

  /** One token passes the filter exactly when it is not empty. */
  lemma NonEmptySingle(t: string)
    ensures NonEmpty([t]) == if t == "" then [] else [t]
  {
    assert [t][1..] == [];
  }

  function StripEach(tokens: seq<string>): (r: seq<string>)
    ensures |r| == |tokens| && forall i :: 0 <= i < |r| ==> r[i] == Strip(tokens[i])
  {
    seq(|tokens|, i requires 0 <= i < |tokens| => Strip(tokens[i]))
  }

  lemma StripEachConcat(a: seq<string>, b: seq<string>)
    ensures StripEach(a + b) == StripEach(a) + StripEach(b)
  {
  }

  /** `_parse_prefixes`: the comma-separated tokens of `raw`, each stripped, the empty ones
      dropped. Every prefix it yields is non-empty, comma-free and already stripped. */
  function ParsePrefixes(raw: string): (r: seq<string>)
    ensures forall i :: 0 <= i < |r| ==> r[i] != "" && ',' !in r[i] && Stripped(r[i])
  {
    var pieces := Split(raw, ',');
    var stripped := StripEach(pieces);
    assert forall i :: 0 <= i < |stripped| ==> ',' !in stripped[i] by {
      forall i | 0 <= i < |stripped|
        ensures ',' !in stripped[i]
      {
        StripIsSlice(pieces[i], ',');
      }
    }
    NonEmpty(stripped)
  }

  /** A comma splits the parse: the prefixes of `a + "," + b` are those of `a`, then those
      of `b`. */
  lemma ParsePrefixesConcat(a: string, b: string)
    ensures ParsePrefixes(a + "," + b) == ParsePrefixes(a) + ParsePrefixes(b)
  {
    assert a + "," + b == a + [','] + b;
    SplitConcat(a, b, ',');
    StripEachConcat(Split(a, ','), Split(b, ','));
    NonEmptyConcat(StripEach(Split(a, ',')), StripEach(Split(b, ',')));
  }

  /** A token without a comma yields its strip, or nothing when that is empty. */
  lemma ParsePrefixesToken(t: string)
    requires ',' !in t
    ensures ParsePrefixes(t) == if Strip(t) == "" then [] else [Strip(t)]
  {
    SplitWithoutSep(t, ',');
    assert StripEach([t]) == [Strip(t)];
    NonEmptySingle(Strip(t));
  }

  /** A comma-free token padded with whitespace yields the token, or nothing when it is empty. */
  lemma ParsePaddedToken(p: string, m: string, q: string)
    requires AllSpace(p) && AllSpace(q) && ',' !in p + m + q && Stripped(m)
    ensures ParsePrefixes(p + m + q) == if m == "" then [] else [m]
  {
    StripUnique(p, m, q);
    ParsePrefixesToken(p + m + q);
  }

  /** Listing well-formed prefixes with commas and parsing the list gives them back. */
  lemma ParsePrefixesJoin(prefixes: seq<string>)
    requires |prefixes| >= 1
    requires forall i :: 0 <= i < |prefixes| ==> prefixes[i] != "" && ',' !in prefixes[i] && Stripped(prefixes[i])
    ensures ParsePrefixes(Join(prefixes, ',')) == prefixes
  {
    SplitJoin(prefixes, ',');
    forall i | 0 <= i < |prefixes|
      ensures Strip(prefixes[i]) == prefixes[i]
    {
      StripUnchanged(prefixes[i]);
    }
    assert StripEach(prefixes) == prefixes;
    NonEmptyKeeps(prefixes);
  }

  lemma {:induction false} NonEmptyKeeps(tokens: seq<string>)
    requires forall i :: 0 <= i < |tokens| ==> tokens[i] != ""
    ensures NonEmpty(tokens) == tokens
    decreases |tokens|
  {
    if tokens != [] {
      NonEmptyKeeps(tokens[1..]);
    }
  }

  /** The allow-list `get_settings` installs: the parsed prefixes, or `("image/",)` when the
      parse yields none, so it is never empty and never holds an empty prefix. */
  function AllowedPrefixes(raw: string): (r: seq<string>)
    ensures |r| >= 1 && forall i :: 0 <= i < |r| ==> r[i] != ""
    ensures ParsePrefixes(raw) != [] ==> r == ParsePrefixes(raw)
    ensures ParsePrefixes(raw) == [] ==> r == ["image/"]
  {
    var parsed := ParsePrefixes(raw);
    if parsed == [] then ["image/"] else parsed
  }

  const MaxBytesVariable := "LOCAL_BUCKET_MAX_BYTES"
  const TtlVariable := "LOCAL_BUCKET_TTL_SECONDS"
  const MaxFilesVariable := "LOCAL_BUCKET_MAX_FILES"
  const PortVariable := "LOCAL_BUCKET_PORT"
  const AllowedPrefixesVariable := "LOCAL_BUCKET_ALLOWED_PREFIXES"
  const HostVariable := "LOCAL_BUCKET_HOST"
  const ReloadVariable := "LOCAL_BUCKET_RELOAD"

  /** The variable is unset, or set to an integer. */
  predicate IntVariableOk(env: Env, name: string) {
    name in env ==> ParseInt(env[name]).Some?
  }

  /** `get_settings`: every variable read with its default. It fails exactly when an integer
      variable is set to a non-integer, naming the first such variable in the order the
      record's fields are read (upload cap, TTL, count cap, port). */
  function LoadSettings(env: Env): (r: Result<Settings, ConfigError>)
    ensures r.Ok? <==> && IntVariableOk(env, MaxBytesVariable) && IntVariableOk(env, TtlVariable)
                       && IntVariableOk(env, MaxFilesVariable) && IntVariableOk(env, PortVariable)
    ensures !IntVariableOk(env, MaxBytesVariable) ==> r == Err(NotInteger(MaxBytesVariable))
    ensures IntVariableOk(env, MaxBytesVariable) && !IntVariableOk(env, TtlVariable) ==> r == Err(NotInteger(TtlVariable))
    ensures IntVariableOk(env, MaxBytesVariable) && IntVariableOk(env, TtlVariable) && !IntVariableOk(env, MaxFilesVariable)
            ==> r == Err(NotInteger(MaxFilesVariable))
    ensures (IntVariableOk(env, MaxBytesVariable) && IntVariableOk(env, TtlVariable) && IntVariableOk(env, MaxFilesVariable)
             && !IntVariableOk(env, PortVariable)) ==> r == Err(NotInteger(PortVariable))
    ensures r.Ok? ==> && r.value.routePrefix == "s"
                      && r.value.allowedMimePrefixes == AllowedPrefixes(GetEnv(env, AllowedPrefixesVariable, "image/"))
                      && EnvInt(env, MaxBytesVariable, 10 * 1024 * 1024) == Ok(r.value.maxUploadBytes)
                      && EnvInt(env, TtlVariable, 0) == Ok(r.value.retentionSeconds)
                      && EnvInt(env, MaxFilesVariable, 0) == Ok(r.value.maxFiles)
                      && r.value.host == GetEnv(env, HostVariable, "127.0.0.1")
                      && EnvInt(env, PortVariable, 8000) == Ok(r.value.port)
                      && r.value.reload == EnvBool(env, ReloadVariable, false)
    ensures r.Ok? ==> |r.value.allowedMimePrefixes| >= 1
    ensures r.Ok? ==> forall i :: 0 <= i < |r.value.allowedMimePrefixes| ==> r.value.allowedMimePrefixes[i] != ""
  {
    var allowed := AllowedPrefixes(GetEnv(env, AllowedPrefixesVariable, "image/"));
    var maxUploadBytes :- EnvInt(env, MaxBytesVariable, 10 * 1024 * 1024);
    var retentionSeconds :- EnvInt(env, TtlVariable, 0);
    var maxFiles :- EnvInt(env, MaxFilesVariable, 0);
    var host := GetEnv(env, HostVariable, "127.0.0.1");
    var port :- EnvInt(env, PortVariable, 8000);
    var reload := EnvBool(env, ReloadVariable, false);
    Ok(Settings("s", allowed, maxUploadBytes, retentionSeconds, maxFiles, host, port, reload))
  }

  /** The default allow-list text parses to the single prefix `image/`. */
  lemma ParseDefaultPrefixes()
    ensures ParsePrefixes("image/") == ["image/"]
  {
    SplitWithoutSep("image/", ',');
    StripUnchanged("image/");
    assert StripEach(["image/"]) == ["image/"];
    NonEmptyKeeps(["image/"]);
  }

  /** With nothing set in the environment, the loaded settings are the record's defaults. */
  lemma LoadDefaults()
    ensures LoadSettings(map[]) == Ok(DefaultSettings())
  {
    ParseDefaultPrefixes();
    assert GetEnv(map[], AllowedPrefixesVariable, "image/") == "image/";
    assert AllowedPrefixes("image/") == ["image/"];
  }
}
