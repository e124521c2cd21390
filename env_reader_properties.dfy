/**
 * The behaviour the environment reader promises, stated about `Resolve`
 * (which `ReadEnv` computes) and proved through the reference `Expected`.
 */
module EnvReaderProperties {
  import opened ArrayUtil
  import opened EnvReader
  import opened EnvReaderSpec

  /** The entry can be consulted without ending the call. */
  predicate Passes(e: Entry, load: Loader, skipMissingFiles: bool)
  {
    EntryFailure(e, load, skipMissingFiles).None?
  }

  /** The requested keys that the environment or some parsed file defines. */
  function ResolvableKeys(keys: seq<string>, env: Env, entries: seq<Entry>, load: Loader): set<string>
  {
    set k | k in keys && Lookup(k, env, entries, load).Some?
  }

  // ---------------------------------------------------------------------
  // Facts about the reference

  lemma {:induction false} FirstValueAt(key: string, entries: seq<Entry>, load: Loader, i: nat)
    requires i < |entries| && Defines(entries[i], load, key)
    requires forall j :: 0 <= j < i ==> !Defines(entries[j], load, key)
    ensures FirstValue(key, entries, load) == Some(load(entries[i].path).vars[key])
  {
    if i > 0 {
      assert !Defines(entries[0], load, key);
      FirstValueAt(key, entries[1..], load, i - 1);
    }
  }

  lemma {:induction false} FirstValueNone(key: string, entries: seq<Entry>, load: Loader)
    ensures FirstValue(key, entries, load) == None
        <==> forall j :: 0 <= j < |entries| ==> !Defines(entries[j], load, key)
  {
    if entries != [] {
      FirstValueNone(key, entries[1..], load);
      assert forall j :: 0 < j < |entries| ==> entries[j] == entries[1..][j - 1];
    }
  }

  lemma {:induction false} FirstFailureAt(entries: seq<Entry>, load: Loader, skipMissingFiles: bool, i: nat)
    requires i < |entries| && !Passes(entries[i], load, skipMissingFiles)
    requires forall j :: 0 <= j < i ==> Passes(entries[j], load, skipMissingFiles)
    ensures FirstFailure(entries, load, skipMissingFiles) == EntryFailure(entries[i], load, skipMissingFiles)
  {
    if i > 0 {
      assert Passes(entries[0], load, skipMissingFiles);
      FirstFailureAt(entries[1..], load, skipMissingFiles, i - 1);
    }
  }

  lemma {:induction false} FirstFailureNone(entries: seq<Entry>, load: Loader, skipMissingFiles: bool)
    ensures FirstFailure(entries, load, skipMissingFiles) == None
        <==> forall j :: 0 <= j < |entries| ==> Passes(entries[j], load, skipMissingFiles)
  {
    if entries != [] {
      FirstFailureNone(entries[1..], load, skipMissingFiles);
      assert forall j :: 0 < j < |entries| ==> entries[j] == entries[1..][j - 1];
    }
  }

  lemma {:induction false} UnresolvableCongruent(keys: seq<string>, env: Env, a: seq<Entry>, b: seq<Entry>, load: Loader)
    requires forall k :: FirstValue(k, a, load) == FirstValue(k, b, load)
    ensures Unresolvable(keys, env, a, load) == Unresolvable(keys, env, b, load)
  {
    if keys != [] {
      UnresolvableCongruent(keys[1..], env, a, b, load);
    }
  }

  // ---------------------------------------------------------------------
  // Precedence

  /** A key the environment defines, even as the empty string, keeps the
      environment's value whatever the files say; this follows from the
      contract of `Resolve` alone. */
  lemma EnvironmentWins(keys: seq<string>, arg: PathArg, env: Env, load: Loader,
                        skipMissingFiles: bool, ignoreMissingKeys: bool, key: string)
    requires Resolve(keys, arg, env, load, skipMissingFiles, ignoreMissingKeys).Ok?
    requires key in keys && key in env
    ensures var r := Resolve(keys, arg, env, load, skipMissingFiles, ignoreMissingKeys).value;
            key in r && r[key] == Some(env[key])
  {
  }

  /** A key the environment lacks takes its value from the earliest file that
      defines it; later files never overwrite it. */
  lemma FirstMatchWins(keys: seq<string>, arg: PathArg, env: Env, load: Loader,
                       skipMissingFiles: bool, ignoreMissingKeys: bool, key: string, i: nat)
    requires Resolve(keys, arg, env, load, skipMissingFiles, ignoreMissingKeys).Ok?
    requires key in keys && key !in env
    requires i < |Normalize(arg)| && Defines(Normalize(arg)[i], load, key)
    requires forall j :: 0 <= j < i ==> !Defines(Normalize(arg)[j], load, key)
    ensures var r := Resolve(keys, arg, env, load, skipMissingFiles, ignoreMissingKeys).value;
            key in r && r[key] == Some(load(Normalize(arg)[i].path).vars[key])
  {
    ResolveMatchesExpected(keys, arg, env, load, skipMissingFiles, ignoreMissingKeys);
    FirstValueAt(key, Normalize(arg), load, i);
  }

  /** A key is set to `undefined` exactly when neither the environment nor any
      parsed file defines it. */
  lemma UndefinedIffNowhereDefined(keys: seq<string>, arg: PathArg, env: Env, load: Loader,
                                   skipMissingFiles: bool, ignoreMissingKeys: bool, key: string)
    requires Resolve(keys, arg, env, load, skipMissingFiles, ignoreMissingKeys).Ok?
    requires key in keys
    ensures var r := Resolve(keys, arg, env, load, skipMissingFiles, ignoreMissingKeys).value;
            key in r &&
            (r[key] == None <==> key !in env && forall j :: 0 <= j < |Normalize(arg)| ==> !Defines(Normalize(arg)[j], load, key))
  {
    ResolveMatchesExpected(keys, arg, env, load, skipMissingFiles, ignoreMissingKeys);
    FirstValueNone(key, Normalize(arg), load);
  }

  // ---------------------------------------------------------------------
  // Failures

  /** A missing file under the strict setting ends the call with an error naming
      it, whatever follows it in the list. */
  lemma MissingFileIsFatal(keys: seq<string>, arg: PathArg, env: Env, load: Loader,
                           ignoreMissingKeys: bool, i: nat)
    requires i < |Normalize(arg)| && Normalize(arg)[i].Path? && load(Normalize(arg)[i].path).Missing?
    requires forall j :: 0 <= j < i ==> Passes(Normalize(arg)[j], load, false)
    ensures Resolve(keys, arg, env, load, false, ignoreMissingKeys) == Err(MissingSource(Normalize(arg)[i].path))
  {
    ResolveMatchesExpected(keys, arg, env, load, false, ignoreMissingKeys);
    FirstFailureAt(Normalize(arg), load, false, i);
  }

  /** A file that exists but cannot be loaded ends the call with an error naming
      it, whatever the flags and whatever follows it. */
  lemma UnparseableFileIsFatal(keys: seq<string>, arg: PathArg, env: Env, load: Loader,
                               skipMissingFiles: bool, ignoreMissingKeys: bool, i: nat)
    requires i < |Normalize(arg)| && Normalize(arg)[i].Path? && load(Normalize(arg)[i].path).Unparseable?
    requires forall j :: 0 <= j < i ==> Passes(Normalize(arg)[j], load, skipMissingFiles)
    ensures Resolve(keys, arg, env, load, skipMissingFiles, ignoreMissingKeys) == Err(ParseError(Normalize(arg)[i].path))
  {
    ResolveMatchesExpected(keys, arg, env, load, skipMissingFiles, ignoreMissingKeys);
    FirstFailureAt(Normalize(arg), load, skipMissingFiles, i);
  }

  /** An entry of the list that is not a string ends the call with `InvalidInput`
      once the call reaches it. */
  lemma NonStringEntryIsInvalid(keys: seq<string>, entries: seq<Entry>, env: Env, load: Loader,
                                skipMissingFiles: bool, ignoreMissingKeys: bool, i: nat)
    requires i < |entries| && entries[i] == NonString
    requires forall j :: 0 <= j < i ==> Passes(entries[j], load, skipMissingFiles)
    ensures Resolve(keys, Many(entries), env, load, skipMissingFiles, ignoreMissingKeys) == Err(InvalidInput)
  {
    ResolveMatchesExpected(keys, Many(entries), env, load, skipMissingFiles, ignoreMissingKeys);
    FirstFailureAt(entries, load, skipMissingFiles, i);
  }

  /** Under the tolerant setting a missing file is as good as absent from the list. */
  lemma SkippedFileIsAsIfAbsent(keys: seq<string>, entries: seq<Entry>, env: Env, load: Loader,
                                ignoreMissingKeys: bool, i: nat)
    requires i < |entries| && entries[i].Path? && load(entries[i].path).Missing?
    ensures Resolve(keys, Many(entries), env, load, true, ignoreMissingKeys)
         == Resolve(keys, Many(entries[..i] + entries[i + 1..]), env, load, true, ignoreMissingKeys)
  {
    var shorter := entries[..i] + entries[i + 1..];
    assert Expected(keys, Many(entries), env, load, true, ignoreMissingKeys)
        == Expected(keys, Many(shorter), env, load, true, ignoreMissingKeys) by {
      var e := entries[i];
      assert entries == entries[..i] + ([e] + entries[i + 1..]);
      FirstFailureAppend(entries[..i], [e] + entries[i + 1..], load, true);
      FirstFailureAppend([e], entries[i + 1..], load, true);
      FirstFailureAppend(entries[..i], entries[i + 1..], load, true);
      assert FirstFailure([e], load, true) == None;
      forall k ensures FirstValue(k, entries, load) == FirstValue(k, shorter, load) {
        FirstValueAppend(k, entries[..i], [e] + entries[i + 1..], load);
        FirstValueAppend(k, [e], entries[i + 1..], load);
        FirstValueAppend(k, entries[..i], entries[i + 1..], load);
        assert FirstValue(k, [e], load) == None;
      }
      UnresolvableCongruent(keys, env, entries, shorter, load);
      assert Reference(keys, env, entries, load) == Reference(keys, env, shorter, load);
    }
    ResolveMatchesExpected(keys, Many(entries), env, load, true, ignoreMissingKeys);
    ResolveMatchesExpected(keys, Many(shorter), env, load, true, ignoreMissingKeys);
  }

  // ---------------------------------------------------------------------
  // Normalisation of the path argument

  /** A bare path is the one-element list holding it. */
  lemma SinglePathIsOneElementList(keys: seq<string>, path: string, env: Env, load: Loader,
                                   skipMissingFiles: bool, ignoreMissingKeys: bool)
    ensures Resolve(keys, Single(path), env, load, skipMissingFiles, ignoreMissingKeys)
         == Resolve(keys, Many([Path(path)]), env, load, skipMissingFiles, ignoreMissingKeys)
  {
  }

  /** An argument that is neither a string nor an array reads no file: only the
      environment counts, and the keys it lacks are the gaps, in request order. */
  lemma OtherArgumentReadsOnlyEnvironment(keys: seq<string>, env: Env, load: Loader,
                                          skipMissingFiles: bool, ignoreMissingKeys: bool)
    ensures Resolve(keys, Other, env, load, skipMissingFiles, ignoreMissingKeys)
         == if ArrayDiff(keys, env.Keys) != [] && !ignoreMissingKeys then Err(Unresolved(ArrayDiff(keys, env.Keys)))
            else Ok(map k | k in keys :: if k in env then Some(env[k]) else None)
  {
    var entries: seq<Entry> := [];
    assert Normalize(Other) == entries;
    assert FirstFailure(entries, load, skipMissingFiles) == None;
    GapsWithoutFiles(keys, env, load);
    ReferenceWithoutFiles(keys, env, load);
    ResolveMatchesExpected(keys, Other, env, load, skipMissingFiles, ignoreMissingKeys);
  }

  lemma GapsWithoutFiles(keys: seq<string>, env: Env, load: Loader)
    ensures Unresolvable(keys, env, [], load) == ArrayDiff(keys, env.Keys)
  {
    MissingAreUnresolvable(keys, env.Keys, env, [], load);
  }

  lemma ReferenceWithoutFiles(keys: seq<string>, env: Env, load: Loader)
    ensures Reference(keys, env, [], load) == map k | k in keys :: if k in env then Some(env[k]) else None
  {
  }

  // ---------------------------------------------------------------------
  // The shape of the result

  /** A successful call maps exactly the requested keys; unless gaps are
      tolerated, every one of them to a value. */
  lemma ResultDomain(keys: seq<string>, arg: PathArg, env: Env, load: Loader,
                     skipMissingFiles: bool, ignoreMissingKeys: bool)
    requires Resolve(keys, arg, env, load, skipMissingFiles, ignoreMissingKeys).Ok?
    ensures var r := Resolve(keys, arg, env, load, skipMissingFiles, ignoreMissingKeys).value;
            (forall k :: k in r <==> k in keys) &&
            (!ignoreMissingKeys ==> forall k :: k in r ==> r[k].Some?)
  {
    ResolveMatchesExpected(keys, arg, env, load, skipMissingFiles, ignoreMissingKeys);
    var entries := Normalize(arg);
    if !ignoreMissingKeys {
      forall k | k in keys ensures Lookup(k, env, entries, load).Some? {
        UnresolvableHasAll(keys, env, entries, load, k);
      }
    }
  }

  lemma {:induction false} UnresolvableHasAll(keys: seq<string>, env: Env, entries: seq<Entry>, load: Loader, k: string)
    ensures k in Unresolvable(keys, env, entries, load) <==> k in keys && Lookup(k, env, entries, load) == None
  {
    if keys != [] {
      UnresolvableHasAll(keys[1..], env, entries, load, k);
    }
  }

  lemma {:induction false} NothingUnresolvable(keys: seq<string>, env: Env, entries: seq<Entry>, load: Loader)
    requires forall k :: k in keys ==> Lookup(k, env, entries, load).Some?
    ensures Unresolvable(keys, env, entries, load) == []
  {
    if keys != [] {
      NothingUnresolvable(keys[1..], env, entries, load);
    }
  }

  /** With `ignoreMissingKeys` the call never fails for want of a value: it
      succeeds exactly when every entry can be consulted. */
  lemma TolerantCallFailsOnlyOnEntries(keys: seq<string>, arg: PathArg, env: Env, load: Loader,
                                       skipMissingFiles: bool)
    ensures Resolve(keys, arg, env, load, skipMissingFiles, true).Ok?
        <==> forall j :: 0 <= j < |Normalize(arg)| ==> Passes(Normalize(arg)[j], load, skipMissingFiles)
    ensures !Resolve(keys, arg, env, load, skipMissingFiles, true).Ok?
        ==> !Resolve(keys, arg, env, load, skipMissingFiles, true).error.Unresolved?
  {
    ResolveMatchesExpected(keys, arg, env, load, skipMissingFiles, true);
    FirstFailureNone(Normalize(arg), load, skipMissingFiles);
  }

  /** When every entry can be consulted and every key is defined somewhere, the
      strict call succeeds. */
  lemma Completeness(keys: seq<string>, arg: PathArg, env: Env, load: Loader, skipMissingFiles: bool)
    requires forall j :: 0 <= j < |Normalize(arg)| ==> Passes(Normalize(arg)[j], load, skipMissingFiles)
    requires forall k :: k in keys ==> k in env || exists j :: 0 <= j < |Normalize(arg)| && Defines(Normalize(arg)[j], load, k)
    ensures Resolve(keys, arg, env, load, skipMissingFiles, false).Ok?
  {
    var entries := Normalize(arg);
    ResolveMatchesExpected(keys, arg, env, load, skipMissingFiles, false);
    FirstFailureNone(entries, load, skipMissingFiles);
    forall k | k in keys ensures Lookup(k, env, entries, load).Some? {
      FirstValueNone(k, entries, load);
    }
    NothingUnresolvable(keys, env, entries, load);
  }

  /** An unresolved-keys error comes only from the strict setting, after every
      entry was consulted, and carries the reference's list of gaps. */
  lemma UnresolvedMeansGaps(keys: seq<string>, arg: PathArg, env: Env, load: Loader,
                            skipMissingFiles: bool, ignoreMissingKeys: bool, missing: seq<string>)
    requires Resolve(keys, arg, env, load, skipMissingFiles, ignoreMissingKeys) == Err(Unresolved(missing))
    ensures !ignoreMissingKeys && missing != []
    ensures FirstFailure(Normalize(arg), load, skipMissingFiles) == None
    ensures missing == Unresolvable(keys, env, Normalize(arg), load)
  {
    ResolveMatchesExpected(keys, arg, env, load, skipMissingFiles, ignoreMissingKeys);
  }

  /** The unresolved-keys error lists the still-missing keys exactly as
      `arrayDiff` leaves them: the requested keys minus the resolvable ones, in
      request order, duplicates kept. */
  lemma UnresolvedListsMissingKeys(keys: seq<string>, arg: PathArg, env: Env, load: Loader,
                                   skipMissingFiles: bool, ignoreMissingKeys: bool, missing: seq<string>)
    requires Resolve(keys, arg, env, load, skipMissingFiles, ignoreMissingKeys) == Err(Unresolved(missing))
    ensures missing == ArrayDiff(keys, ResolvableKeys(keys, env, Normalize(arg), load))
    ensures IsSubsequence(missing, keys)
    ensures forall k :: k in missing ==> k !in env && forall j :: 0 <= j < |Normalize(arg)| ==> !Defines(Normalize(arg)[j], load, k)
    ensures forall k :: k in missing ==> multiset(missing)[k] == multiset(keys)[k]
  {
    var entries := Normalize(arg);
    var resolvable := ResolvableKeys(keys, env, entries, load);
    UnresolvedMeansGaps(keys, arg, env, load, skipMissingFiles, ignoreMissingKeys, missing);
    MissingAreUnresolvable(keys, resolvable, env, entries, load);
    assert missing == ArrayDiff(keys, resolvable);
    ArrayDiffIsSubsequence(keys, resolvable);
    forall k | k in missing
      ensures k !in env && forall j :: 0 <= j < |entries| ==> !Defines(entries[j], load, k)
      ensures multiset(missing)[k] == multiset(keys)[k]
    {
      assert k !in resolvable;
      FirstValueNone(k, entries, load);
      ArrayDiffCount(keys, resolvable, k);
    }
  }
}
