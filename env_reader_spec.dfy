/**
 * A declarative reference for the environment reader, independent of the
 * fold: a key's value is the environment's, or else the one of the first
 * parsed file that defines it; the call fails at the first entry that cannot
 * be consulted, or else when some key has no value and gaps are not tolerated.
 * The main theorem says that `Resolve`, and so `ReadEnv`, agree with it.
 */
module EnvReaderSpec {
  import opened ArrayUtil
  import opened EnvReader

  /** The error one entry raises on its own, if any: a non-string entry, an
      unparseable file, or a missing file that is not skipped. */
  function EntryFailure(e: Entry, load: Loader, skipMissingFiles: bool): (r: Option<Error>)
    ensures r.Some? ==> !r.value.Unresolved?
    ensures r == None <==> e.Path? && (load(e.path).Parsed? || (load(e.path).Missing? && skipMissingFiles))
  {
    match e
    case NonString => Some(InvalidInput)
    case Path(p) =>
      match load(p)
      case Unparseable => Some(ParseError(p))
      case Missing => if skipMissingFiles then None else Some(MissingSource(p))
      case Parsed(_) => None
  }

  /** The error of the first entry that cannot be consulted, if any. */
  function FirstFailure(entries: seq<Entry>, load: Loader, skipMissingFiles: bool): (r: Option<Error>)
    ensures r.Some? ==> !r.value.Unresolved?
    ensures r.Some? ==> entries != []
    decreases |entries|
  {
    if entries == [] then None
    else if EntryFailure(entries[0], load, skipMissingFiles).Some? then EntryFailure(entries[0], load, skipMissingFiles)
    else FirstFailure(entries[1..], load, skipMissingFiles)
  }

  /** True if `e` names a file that parsed and defines `key`. */
  predicate Defines(e: Entry, load: Loader, key: string)
  {
    e.Path? && load(e.path).Parsed? && key in load(e.path).vars
  }

  /** The value of `key` in the first parsed file that defines it. */
  function FirstValue(key: string, entries: seq<Entry>, load: Loader): Option<string>
    decreases |entries|
  {
    if entries == [] then None
    else if Defines(entries[0], load, key) then Some(load(entries[0].path).vars[key])
    else FirstValue(key, entries[1..], load)
  }

  /** The value `key` should get: the environment wins over every file. */
  function Lookup(key: string, env: Env, entries: seq<Entry>, load: Loader): Option<string>
  {
    if key in env then Some(env[key]) else FirstValue(key, entries, load)
  }

  /** The requested keys nothing defines, in request order. */
  function Unresolvable(keys: seq<string>, env: Env, entries: seq<Entry>, load: Loader): seq<string>
    decreases |keys|
  {
    if keys == [] then []
    else (if Lookup(keys[0], env, entries, load) == None then [keys[0]] else [])
         + Unresolvable(keys[1..], env, entries, load)
  }

  /** What a call should return. */
  function Expected(keys: seq<string>, arg: PathArg, env: Env, load: Loader,
                    skipMissingFiles: bool, ignoreMissingKeys: bool): Result<Resolution>
  {
    var entries := Normalize(arg);
    match FirstFailure(entries, load, skipMissingFiles)
    case Some(e) => Err(e)
    case None =>
      var gaps := Unresolvable(keys, env, entries, load);
      if gaps != [] && !ignoreMissingKeys then Err(Unresolved(gaps))
      else Ok(Reference(keys, env, entries, load))
  }

  /** Every requested key mapped to the value it should get, `None` where nothing defines it. */
  function Reference(keys: seq<string>, env: Env, entries: seq<Entry>, load: Loader): Resolution
  {
    map k | k in keys :: Lookup(k, env, entries, load)
  }

  /** The object after the files `done` have been consulted. */
  function Partial(keys: seq<string>, env: Env, done: seq<Entry>, load: Loader): Resolution
  {
    map k | k in keys && Lookup(k, env, done, load).Some? :: Lookup(k, env, done, load)
  }

  /** The local state after the files `done` have been consulted. */
  function Tracked(keys: seq<string>, env: Env, done: seq<Entry>, load: Loader): Progress
  {
    var m := Partial(keys, env, done, load);
    Progress(m, ArrayDiff(keys, m.Keys))
  }

  lemma {:induction false} FirstValueAppend(key: string, a: seq<Entry>, b: seq<Entry>, load: Loader)
    ensures FirstValue(key, a + b, load)
         == if FirstValue(key, a, load).Some? then FirstValue(key, a, load) else FirstValue(key, b, load)
  {
    if a == [] {
      assert a + b == b;
    } else {
      assert (a + b)[0] == a[0];
      assert (a + b)[1..] == a[1..] + b;
      FirstValueAppend(key, a[1..], b, load);
    }
  }

  lemma {:induction false} FirstFailureAppend(a: seq<Entry>, b: seq<Entry>, load: Loader, skipMissingFiles: bool)
    ensures FirstFailure(a + b, load, skipMissingFiles)
         == if FirstFailure(a, load, skipMissingFiles).Some? then FirstFailure(a, load, skipMissingFiles)
            else FirstFailure(b, load, skipMissingFiles)
  {
    if a == [] {
      assert a + b == b;
    } else {
      assert (a + b)[0] == a[0];
      assert (a + b)[1..] == a[1..] + b;
      FirstFailureAppend(a[1..], b, load, skipMissingFiles);
    }
  }

  /** Consulting a skipped missing file changes nothing. */
  lemma SkippedFileKeepsPartial(keys: seq<string>, env: Env, done: seq<Entry>, e: Entry, load: Loader)
    requires e.Path? && load(e.path).Missing?
    ensures Partial(keys, env, done + [e], load) == Partial(keys, env, done, load)
  {
    forall k ensures Lookup(k, env, done + [e], load) == Lookup(k, env, done, load) {
      FirstValueAppend(k, done, [e], load);
      assert FirstValue(k, [e], load) == None;
    }
  }

  /** A key's value after one more parsed file: the earlier value if there was
      one, else the file's. */
  lemma LookupAfterParsed(k: string, env: Env, done: seq<Entry>, e: Entry, load: Loader)
    requires e.Path? && load(e.path).Parsed?
    ensures Lookup(k, env, done + [e], load)
         == if Lookup(k, env, done, load).Some? then Lookup(k, env, done, load)
            else if k in load(e.path).vars then Some(load(e.path).vars[k]) else None
  {
    FirstValueAppend(k, done, [e], load);
    assert [e][1..] == [];
  }

  /** Consulting a parsed file adds its values for exactly the keys still missing. */
  lemma ParsedFileExtendsPartial(keys: seq<string>, env: Env, done: seq<Entry>, e: Entry, load: Loader)
    requires e.Path? && load(e.path).Parsed?
    ensures var m := Partial(keys, env, done, load);
            Partial(keys, env, done + [e], load) == m + Supplied(ArrayDiff(keys, m.Keys), load(e.path).vars)
  {
    var m := Partial(keys, env, done, load);
    var s := Supplied(ArrayDiff(keys, m.Keys), load(e.path).vars);
    var m' := Partial(keys, env, done + [e], load);
    forall k | k in keys ensures (k in m' <==> k in m + s) && (k in m' ==> m'[k] == (m + s)[k]) {
      LookupAfterParsed(k, env, done, e, load);
    }
    assert m' == m + s;
  }

  /** The fold keeps the object equal to `Partial` of the files consulted so far. */
  lemma {:induction false} ConsultMatches(keys: seq<string>, env: Env, load: Loader, skipMissingFiles: bool,
                                          done: seq<Entry>, rest: seq<Entry>)
    ensures Consult(rest, load, skipMissingFiles, Tracked(keys, env, done, load))
         == match FirstFailure(rest, load, skipMissingFiles)
            case Some(e) => Err(e)
            case None => Ok(Tracked(keys, env, done + rest, load))
    decreases |rest|
  {
    var m := Partial(keys, env, done, load);
    if rest == [] {
      assert done + rest == done;
    } else {
      assert done + rest == (done + [rest[0]]) + rest[1..];
      match rest[0]
      case NonString =>
      case Path(path) =>
        match load(path)
        case Unparseable =>
        case Missing =>
          if skipMissingFiles {
            SkippedFileKeepsPartial(keys, env, done, rest[0], load);
            ConsultMatches(keys, env, load, skipMissingFiles, done + [rest[0]], rest[1..]);
          }
        case Parsed(vars) =>
          ParsedFileExtendsPartial(keys, env, done, rest[0], load);
          var m' := Partial(keys, env, done + [rest[0]], load);
          ArrayDiffTwice(keys, m.Keys, m'.Keys);
          assert m.Keys + m'.Keys == m'.Keys;
          ConsultMatches(keys, env, load, skipMissingFiles, done + [rest[0]], rest[1..]);
    }
  }

  /** The keys missing at the end are exactly the unresolvable ones, in request order. */
  lemma {:induction false} MissingAreUnresolvable(ks: seq<string>, resolved: set<string>,
                                                  env: Env, entries: seq<Entry>, load: Loader)
    requires forall k :: k in ks ==> (k in resolved <==> Lookup(k, env, entries, load).Some?)
    ensures ArrayDiff(ks, resolved) == Unresolvable(ks, env, entries, load)
  {
    if ks != [] {
      MissingAreUnresolvable(ks[1..], resolved, env, entries, load);
    }
  }

  /** Setting the keys still missing to `undefined` completes the object. */
  lemma MarkingGapsCompletes(keys: seq<string>, env: Env, entries: seq<Entry>, load: Loader)
    ensures Partial(keys, env, entries, load) + Undefined(ArrayDiff(keys, Partial(keys, env, entries, load).Keys))
         == Reference(keys, env, entries, load)
  {
  }

  /** With no key missing, the object already is complete. */
  lemma NoGapsCompletes(keys: seq<string>, env: Env, entries: seq<Entry>, load: Loader)
    requires ArrayDiff(keys, Partial(keys, env, entries, load).Keys) == []
    ensures Partial(keys, env, entries, load) == Reference(keys, env, entries, load)
  {
  }

  /** The final step turns the state after all files into the reference result. */
  lemma FinishMatches(keys: seq<string>, env: Env, entries: seq<Entry>, load: Loader, ignoreMissingKeys: bool)
    ensures Finish(Tracked(keys, env, entries, load), ignoreMissingKeys)
         == if Unresolvable(keys, env, entries, load) != [] && !ignoreMissingKeys
            then Err(Unresolved(Unresolvable(keys, env, entries, load)))
            else Ok(Reference(keys, env, entries, load))
  {
    var q := Partial(keys, env, entries, load);
    MissingAreUnresolvable(keys, q.Keys, env, entries, load);
    if ArrayDiff(keys, q.Keys) == [] {
      NoGapsCompletes(keys, env, entries, load);
    } else if ignoreMissingKeys {
      MarkingGapsCompletes(keys, env, entries, load);
    }
  }

  /** `Resolve` (and so `ReadEnv`) returns exactly what the reference prescribes. */
  lemma ResolveMatchesExpected(keys: seq<string>, arg: PathArg, env: Env, load: Loader,
                               skipMissingFiles: bool, ignoreMissingKeys: bool)
    ensures Resolve(keys, arg, env, load, skipMissingFiles, ignoreMissingKeys)
         == Expected(keys, arg, env, load, skipMissingFiles, ignoreMissingKeys)
  {
    var entries := Normalize(arg);
    var m := FromEnvironment(keys, env);
    assert m == Partial(keys, env, [], load);
    assert Progress(m, ArrayDiff(keys, m.Keys)) == Tracked(keys, env, [], load);
    ConsultMatches(keys, env, load, skipMissingFiles, [], entries);
    assert [] + entries == entries;
    if FirstFailure(entries, load, skipMissingFiles).None? {
      FinishMatches(keys, env, entries, load, ignoreMissingKeys);
    }
  }
}
