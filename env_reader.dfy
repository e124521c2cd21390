/**
 * The environment reader: resolves requested configuration keys from the
 * process environment first and then from an ordered list of `.env` files,
 * highest priority first.
 *
 * The foreign parts are inputs: the environment is a map, and the file
 * system together with the dotenv parser is a `Loader` that tells, per
 * path, whether the file is missing, unparseable, or parsed into a map.
 */
module EnvReader {
  import opened ArrayUtil

  datatype Option<T> = None | Some(value: T)

  /** A snapshot of the process environment. */
  type Env = map<string, string>

  /** One element of the `pathToEnvFiles` array: a path, or a value that is not a string. */
  datatype Entry = Path(path: string) | NonString

  /** The `pathToEnvFiles` argument: a bare string, an array, or anything else. */
  datatype PathArg = Single(path: string) | Many(entries: seq<Entry>) | Other

  /** What existence check plus dotenv parsing yield for one path. */
  datatype DotEnv = Missing | Unparseable | Parsed(vars: map<string, string>)

  type Loader = string -> DotEnv

  datatype Error =
    | InvalidInput              // an entry of the path array is not a string
    | MissingSource(path: string) // the file does not exist and missing files are not skipped
    | ParseError(path: string)    // the file exists but could not be loaded
    | Unresolved(keys: seq<string>) // keys no source defines, in request order

  datatype Result<T> = Ok(value: T) | Err(error: Error)

  /** The returned object: `None` is a key set to `undefined`. */
  type Resolution = map<string, Option<string>>

  /** The local state of a call: the object built so far and the keys still missing. */
  datatype Progress = Progress(resolved: Resolution, missing: seq<string>)

  /** The requested keys the environment defines, with their environment values. */
  function FromEnvironment(keys: seq<string>, env: Env): (r: Resolution)
    ensures forall k :: k in r ==> k in keys
    ensures forall k :: k in keys ==> (k in r <==> k in env)
    ensures forall k :: k in r ==> r[k] == Some(env[k])
    ensures ArrayDiff(keys, r.Keys) == ArrayDiff(keys, env.Keys)
  {
    var r := map k | k in keys && k in env :: Some(env[k]);
    ArrayDiffCongruent(keys, r.Keys, env.Keys);
    r
  }

  /** A bare string becomes a one-element list; a value that is neither a string
      nor an array names no file at all. */
  function Normalize(arg: PathArg): (r: seq<Entry>)
    ensures arg.Many? ==> r == arg.entries
    ensures !arg.Many? ==> |r| <= 1 && forall e :: e in r ==> e.Path?
  {
    match arg
    case Single(p) => [Path(p)]
    case Many(es) => es
    case Other => []
  }

  /** The values a parsed file supplies for the keys that are still missing. */
  function Supplied(missing: seq<string>, vars: map<string, string>): (r: Resolution)
    ensures forall k :: k in r <==> k in missing && k in vars
    ensures forall k :: k in r ==> r[k] == Some(vars[k])
  {
    map k | k in missing && k in vars :: Some(vars[k])
  }

  /** No key is both in the object and in the missing list. */
  predicate Settled(p: Progress)
  {
    forall k :: k in p.missing ==> k !in p.resolved
  }

  /** Consults the entries in order, stopping at the first failure. The missing
      list only shrinks, no key leaves the object, and once the state is settled
      a value in the object is never overwritten by a later file. */
  function Consult(entries: seq<Entry>, load: Loader, skipMissingFiles: bool, p: Progress): (r: Result<Progress>)
    ensures r.Err? ==> entries != [] && !r.error.Unresolved?
    ensures r.Ok? ==> forall k :: k in r.value.missing ==> k in p.missing
    ensures r.Ok? ==> p.resolved.Keys <= r.value.resolved.Keys
    ensures r.Ok? && Settled(p) ==>
              Settled(r.value) && forall k :: k in p.resolved ==> r.value.resolved[k] == p.resolved[k]
    decreases |entries|
  {
    if entries == [] then Ok(p)
    else match entries[0]
      case NonString => Err(InvalidInput)
      case Path(path) =>
        match load(path)
        case Missing =>
          if skipMissingFiles then Consult(entries[1..], load, skipMissingFiles, p)
          else Err(MissingSource(path))
        case Unparseable => Err(ParseError(path))
        case Parsed(vars) =>
          var m := p.resolved + Supplied(p.missing, vars);
          Consult(entries[1..], load, skipMissingFiles, Progress(m, ArrayDiff(p.missing, m.Keys)))
  }

  /** The keys set to `undefined` at the end. */
  function Undefined(ks: seq<string>): (r: Resolution)
    ensures forall k :: k in r <==> k in ks
    ensures forall k :: k in r ==> r[k] == None
  {
    map k | k in ks :: None
  }

  /** The final step: keys still missing are either set to `undefined` or reported together. */
  function Finish(p: Progress, ignoreMissingKeys: bool): (r: Result<Resolution>)
    ensures r.Err? <==> p.missing != [] && !ignoreMissingKeys
    ensures r.Err? ==> r.error == Unresolved(p.missing)
    ensures r.Ok? ==> r.value.Keys == p.resolved.Keys + set k | k in p.missing
    ensures r.Ok? ==> forall k :: k in r.value ==> r.value[k] == if k in p.missing then None else p.resolved[k]
  {
    if |p.missing| > 0 then
      if ignoreMissingKeys then Ok(p.resolved + Undefined(p.missing))
      else Err(Unresolved(p.missing))
    else Ok(p.resolved)
  }

  /** The whole resolution, as a fold over the normalised entries. */
  function Resolve(keys: seq<string>, arg: PathArg, env: Env, load: Loader,
                   skipMissingFiles: bool, ignoreMissingKeys: bool): (r: Result<Resolution>)
    ensures r.Err? && r.error.Unresolved? ==> !ignoreMissingKeys && r.error.keys != []
    ensures r.Err? && !r.error.Unresolved? ==> Normalize(arg) != []
    ensures r.Ok? ==> forall k :: k in keys && k in env ==> k in r.value && r.value[k] == Some(env[k])
  {
    var m := FromEnvironment(keys, env);
    match Consult(Normalize(arg), load, skipMissingFiles, Progress(m, ArrayDiff(keys, m.Keys)))
    case Err(e) => Err(e)
    case Ok(p) => Finish(p, ignoreMissingKeys)
  }

  lemma FromEnvironmentExtend(keys: seq<string>, key: string, env: Env)
    ensures FromEnvironment(keys + [key], env)
         == if key in env then FromEnvironment(keys, env)[key := Some(env[key])] else FromEnvironment(keys, env)
  {
  }

  lemma SuppliedExtend(m: Resolution, filled: Resolution, missing: seq<string>, key: string, vars: map<string, string>)
    requires filled == m + Supplied(missing, vars)
    ensures m + Supplied(missing + [key], vars)
         == if key in vars then filled[key := Some(vars[key])] else filled
  {
  }

  lemma UndefinedExtend(ks: seq<string>, key: string)
    ensures Undefined(ks + [key]) == Undefined(ks)[key := None]
  {
  }

  /** After a file fills some missing keys, recomputing the missing list from the
      old one gives the requested keys not in the object, as before. */
  lemma RecomputeMissing(keys: seq<string>, before: Resolution, m: Resolution, vars: map<string, string>)
    requires forall k :: k in before ==> k in keys
    requires m == before + Supplied(ArrayDiff(keys, before.Keys), vars)
    ensures forall k :: k in m ==> k in keys
    ensures ArrayDiff(ArrayDiff(keys, before.Keys), m.Keys) == ArrayDiff(keys, m.Keys)
  {
    ArrayDiffTwice(keys, before.Keys, m.Keys);
    assert before.Keys + m.Keys == m.Keys;
  }

  /** The loop over the requested keys that copies every key the environment
      defines, even as the empty string, into a fresh object. */
  method ReadEnvironment(keys: seq<string>, env: Env) returns (m: Resolution)
    ensures m == FromEnvironment(keys, env)
  {
    m := map[];
    var i := 0;
    while i < |keys|
      invariant 0 <= i <= |keys|
      invariant m == FromEnvironment(keys[..i], env)
    {
      var key := keys[i];
      if key in env {
        m := m[key := Some(env[key])];
      }
      assert keys[..i + 1] == keys[..i] + [key];
      FromEnvironmentExtend(keys[..i], key, env);
      i := i + 1;
    }
    assert keys[..i] == keys;
  }

  /** The loop over the missing keys for one parsed file: each key the file
      defines is copied into the object. */
  method FillMissing(m: Resolution, missingKeys: seq<string>, vars: map<string, string>)
    returns (m': Resolution)
    ensures m' == m + Supplied(missingKeys, vars)
  {
    m' := m;
    var t := 0;
    while t < |missingKeys|
      invariant 0 <= t <= |missingKeys|
      invariant m' == m + Supplied(missingKeys[..t], vars)
    {
      var key := missingKeys[t];
      assert missingKeys[..t + 1] == missingKeys[..t] + [key];
      SuppliedExtend(m, m', missingKeys[..t], key, vars);
      if key in vars {
        m' := m'[key := Some(vars[key])];
      }
      t := t + 1;
    }
    assert missingKeys[..t] == missingKeys;
  }

  /** The loop that sets every key still missing to `undefined`. */
  method MarkUndefined(m: Resolution, missingKeys: seq<string>) returns (m': Resolution)
    ensures m' == m + Undefined(missingKeys)
  {
    m' := m;
    var t := 0;
    while t < |missingKeys|
      invariant 0 <= t <= |missingKeys|
      invariant m' == m + Undefined(missingKeys[..t])
    {
      m' := m'[missingKeys[t] := None];
      assert missingKeys[..t + 1] == missingKeys[..t] + [missingKeys[t]];
      UndefinedExtend(missingKeys[..t], missingKeys[t]);
      t := t + 1;
    }
    assert missingKeys[..t] == missingKeys;
  }

  /** The loop over the `.env` files, highest priority first. Each parsed file
      fills only keys that are still missing; the missing list is recomputed
      after each file. A failure ends the loop at once. */
  method ConsultFiles(keys: seq<string>, entries: seq<Entry>, load: Loader, skipMissingFiles: bool,
                      m0: Resolution)
    returns (r: Result<Progress>)
    requires forall k :: k in m0 ==> k in keys
    ensures r == Consult(entries, load, skipMissingFiles, Progress(m0, ArrayDiff(keys, m0.Keys)))
    ensures r.Ok? ==> r.value.missing == ArrayDiff(keys, r.value.resolved.Keys)
  {
    var m := m0;
    var missingKeys := ArrayDiff(keys, m.Keys);
    ghost var outcome := Consult(entries, load, skipMissingFiles, Progress(m, missingKeys));
    var j := 0;
    while j < |entries|
      invariant 0 <= j <= |entries|
      invariant Consult(entries[j..], load, skipMissingFiles, Progress(m, missingKeys)) == outcome
      invariant forall k :: k in m ==> k in keys
      invariant missingKeys == ArrayDiff(keys, m.Keys)
    {
      match entries[j] {
        case NonString =>
          return Err(InvalidInput);
        case Path(path) =>
          match load(path) {
            case Missing =>
              if !skipMissingFiles {
                return Err(MissingSource(path));
              }
            case Unparseable =>
              return Err(ParseError(path));
            case Parsed(vars) =>
              ghost var before := m;
              m := FillMissing(m, missingKeys, vars);
              RecomputeMissing(keys, before, m, vars);
              missingKeys := ArrayDiff(missingKeys, m.Keys);
          }
      }
      assert entries[j..][1..] == entries[j + 1..];
      j := j + 1;
    }
    return Ok(Progress(m, missingKeys));
  }

  /** `readEnv`: the environment first, then the files, then the keys still missing. */
  method ReadEnv(keys: seq<string>, pathToEnvFiles: PathArg, env: Env, load: Loader,
                 skipMissingFiles: bool, ignoreMissingKeys: bool) returns (res: Result<Resolution>)
    ensures res == Resolve(keys, pathToEnvFiles, env, load, skipMissingFiles, ignoreMissingKeys)
  {
    var m := ReadEnvironment(keys, env);
    var consulted := ConsultFiles(keys, Normalize(pathToEnvFiles), load, skipMissingFiles, m);
    if consulted.Err? {
      return Err(consulted.error);
    }
    m := consulted.value.resolved;
    var missingKeys := consulted.value.missing;
    if |missingKeys| > 0 {
      if ignoreMissingKeys {
        m := MarkUndefined(m, missingKeys);
      } else {
        return Err(Unresolved(missingKeys));
      }
    }
    return Ok(m);
  }
}
