/**
 The typed view that the license generator takes of its `generator.properties`
 configuration. The loaded store is a value that no getter changes: every
 getter is a function of the store. Lists are comma-joined strings split with
 `String.split(",")`; repositories are two such lists zipped position by
 position into a map.
 */
module GeneratorProperties {
  import Strings

  datatype Option<T> = None | Some(value: T)

  /** The ways a getter fails. */
  datatype Error =
    | CountMismatch              // the repository name and URL lists differ in length
    | DuplicateKey(name: string) // a repository name occurs twice while building the map
    | ConversionFailed(key: PropertyKey)  // a stored value is not a boolean literal

  datatype Result<T> = Ok(value: T) | Err(error: Error)

  /** The keys the generator reads; distinct by construction. */
  datatype PropertyKey =
    | RepositoryNames
    | RepositoryUrls
    | ProcessPlugins
    | ExcludedScopes
    | ExcludedClassifiers
    | IncludeOptional

  /** The loaded properties: the raw text stored under each key that is set. */
  type Configuration = map<PropertyKey, string>

  const DefaultFilePath: string := "generator.properties"
  const DefaultRepositoryName: string := "Maven Central"
  const DefaultRepositoryUrl: string := "http://repo1.maven.org/maven2"
  const DefaultIsProcessPlugins: bool := false
  const DefaultIsIncludeOptional: bool := false
  const DefaultExcludedScopes: string := "test,system,provided"
  const DefaultExcludedClassifiers: string := "tests"

  const Comma: char := ','

  /** The stored text, or `default` when the key is not set. */
  function GetString(config: Configuration, key: PropertyKey, default: string): (r: string)
    ensures key in config ==> r == config[key]
    ensures key !in config ==> r == default
  {
    if key in config then config[key] else default
  }

  /** The stored value read as a boolean, or `default` when the key is not set.
      `toBoolean` is the store's own reading of a boolean literal; it answers
      `None` for text it does not accept. */
  function GetBoolean(config: Configuration, key: PropertyKey, default: bool,
                      toBoolean: string -> Option<bool>): (r: Result<bool>)
    ensures key !in config ==> r == Ok(default)
    ensures key in config ==> (r.Ok? <==> toBoolean(config[key]).Some?)
    ensures key in config && r.Ok? ==> r.value == toBoolean(config[key]).value
    ensures r.Err? ==> r.error == ConversionFailed(key)
  {
    if key !in config then Ok(default)
    else match toBoolean(config[key])
      case Some(b) => Ok(b)
      case None => Err(ConversionFailed(key))
  }

  /** The values that occur in `xs`. */
  function Elements(xs: seq<string>): set<string>
  {
    set x | x in xs
  }

  /** No value occurs twice. */
  predicate Distinct(xs: seq<string>)
  {
    forall i, j :: 0 <= i < j < |xs| ==> xs[i] != xs[j]
  }

  /** `keys[j]` is the first key that repeats an earlier one. */
  predicate FirstDuplicate(keys: seq<string>, j: int)
  {
    0 <= j < |keys| && keys[j] in keys[..j] && Distinct(keys[..j])
  }

  /**
   Collects the entries `keys[i] -> values[i]` for `i` from 0 up to `n`, in
   index order, failing on the first key that was already collected (no merge
   function: a repeated key is an error, not an overwrite).
   */
  function CollectUpTo(keys: seq<string>, values: seq<string>, n: nat): (r: Result<map<string, string>>)
    requires n <= |keys| == |values|
    ensures r.Ok? <==> Distinct(keys[..n])
    ensures r.Ok? ==> r.value.Keys == Elements(keys[..n]) && |r.value| == n
    ensures r.Ok? ==> forall i :: 0 <= i < n ==> r.value[keys[i]] == values[i]
    ensures r.Err? ==> exists j :: j < n && FirstDuplicate(keys, j) && r.error == DuplicateKey(keys[j])
    decreases n
  {
    if n == 0 then Ok(map[])
    else match CollectUpTo(keys, values, n - 1)
      case Err(e) =>
        PrefixDuplicate(keys, e, n);
        Err(e)
      case Ok(m) =>
        if keys[n - 1] in m then
          DuplicateAt(keys, m, n);
          Err(DuplicateKey(keys[n - 1]))
        else
          CollectExtend(keys, values, m, n);
          Ok(m[keys[n - 1] := values[n - 1]])
  }

  /** A duplicate before position `n - 1` is still one among the first `n` keys. */
  lemma PrefixDuplicate(keys: seq<string>, e: Error, n: nat)
    requires 0 < n <= |keys|
    requires exists j :: j < n - 1 && FirstDuplicate(keys, j) && e == DuplicateKey(keys[j])
    ensures exists j :: j < n && FirstDuplicate(keys, j) && e == DuplicateKey(keys[j])
    ensures !Distinct(keys[..n])
  {
  }

  /** Key `n - 1`, already collected from a prefix without repeats, is the
      first duplicate. */
  lemma DuplicateAt(keys: seq<string>, m: map<string, string>, n: nat)
    requires 0 < n <= |keys|
    requires m.Keys == Elements(keys[..n - 1]) && Distinct(keys[..n - 1]) && keys[n - 1] in m
    ensures FirstDuplicate(keys, n - 1) && !Distinct(keys[..n])
  {
  }

  /** Adding the entry of key `n - 1`, not yet collected, keeps every earlier entry.
      The steps below are not needed for soundness, but without them the proof
      search sits at the edge of its budget. */
  lemma CollectExtend(keys: seq<string>, values: seq<string>, m: map<string, string>, n: nat)
    requires 0 < n <= |keys| == |values|
    requires m.Keys == Elements(keys[..n - 1]) && |m| == n - 1
    requires forall i :: 0 <= i < n - 1 ==> m[keys[i]] == values[i]
    requires Distinct(keys[..n - 1]) && keys[n - 1] !in m
    ensures var r := m[keys[n - 1] := values[n - 1]];
      && r.Keys == Elements(keys[..n])
      && |r| == n
      && (forall i :: 0 <= i < n ==> r[keys[i]] == values[i])
      && Distinct(keys[..n])
  {
    assert keys[..n] == keys[..n - 1] + [keys[n - 1]];
    forall i | 0 <= i < n - 1 ensures keys[i] in m {
      assert keys[..n - 1][i] == keys[i];
    }
    forall i, j | 0 <= i < j < n ensures keys[..n][i] != keys[..n][j] {
      if j < n - 1 {
        assert keys[..n - 1][i] == keys[..n][i] && keys[..n - 1][j] == keys[..n][j];
      }
    }
  }

  /** `Collectors.toMap` over the index-wise pairs of all the keys and values. */
  function ToMap(keys: seq<string>, values: seq<string>): (r: Result<map<string, string>>)
    requires |keys| == |values|
    ensures r.Ok? <==> Distinct(keys)
    ensures r.Ok? ==> r.value.Keys == Elements(keys) && |r.value| == |keys|
    ensures r.Ok? ==> forall i :: 0 <= i < |keys| ==> r.value[keys[i]] == values[i]
    ensures r.Err? ==> exists j :: FirstDuplicate(keys, j) && r.error == DuplicateKey(keys[j])
  {
    assert keys[..|keys|] == keys;
    CollectUpTo(keys, values, |keys|)
  }

  /** The repository names: the stored comma list, or the one default name. */
  function RepositoryNameList(config: Configuration): seq<string>
  {
    Strings.Split(GetString(config, RepositoryNames, DefaultRepositoryName), Comma)
  }

  /** The repository URLs: the stored comma list, or the one default URL. */
  function RepositoryUrlList(config: Configuration): seq<string>
  {
    Strings.Split(GetString(config, RepositoryUrls, DefaultRepositoryUrl), Comma)
  }

  /** The repositories, name to URL. */
  function GetRepositories(config: Configuration): (r: Result<map<string, string>>)
    ensures var names, urls := RepositoryNameList(config), RepositoryUrlList(config);
      |names| != |urls| ==> r == Err(CountMismatch)
    ensures var names, urls := RepositoryNameList(config), RepositoryUrlList(config);
      r.Ok? <==> |names| == |urls| && Distinct(names)
    ensures var names, urls := RepositoryNameList(config), RepositoryUrlList(config);
      r.Ok? ==> && r.value.Keys == Elements(names)
                && |r.value| == |names|
                && forall i :: 0 <= i < |names| ==> r.value[names[i]] == urls[i]
    ensures var names, urls := RepositoryNameList(config), RepositoryUrlList(config);
      |names| == |urls| && !Distinct(names) ==>
        r.Err? && exists j :: FirstDuplicate(names, j) && r.error == DuplicateKey(names[j])
  {
    var names := RepositoryNameList(config);
    var urls := RepositoryUrlList(config);
    if |names| != |urls| then Err(CountMismatch)
    else ToMap(names, urls)
  }

  function IsProcessPlugins(config: Configuration, toBoolean: string -> Option<bool>): (r: Result<bool>)
    ensures ProcessPlugins !in config ==> r == Ok(false)
    ensures ProcessPlugins in config ==>
      r == match toBoolean(config[ProcessPlugins])
           case Some(b) => Ok(b)
           case None => Err(ConversionFailed(ProcessPlugins))
  {
    GetBoolean(config, ProcessPlugins, DefaultIsProcessPlugins, toBoolean)
  }

  /** The excluded dependency scopes, in the order they are written. */
  function GetExcludedScopes(config: Configuration): (r: seq<string>)
    ensures ExcludedScopes in config ==> Strings.IsSplitOf(r, config[ExcludedScopes], Comma)
    ensures ExcludedScopes !in config ==> Strings.IsSplitOf(r, DefaultExcludedScopes, Comma)
  {
    Strings.Split(GetString(config, ExcludedScopes, DefaultExcludedScopes), Comma)
  }

  /** The excluded artifact classifiers, in the order they are written. */
  function GetExcludedClassifiers(config: Configuration): (r: seq<string>)
    ensures ExcludedClassifiers in config ==> Strings.IsSplitOf(r, config[ExcludedClassifiers], Comma)
    ensures ExcludedClassifiers !in config ==> Strings.IsSplitOf(r, DefaultExcludedClassifiers, Comma)
  {
    Strings.Split(GetString(config, ExcludedClassifiers, DefaultExcludedClassifiers), Comma)
  }

  function IsIncludeOptional(config: Configuration, toBoolean: string -> Option<bool>): (r: Result<bool>)
    ensures IncludeOptional !in config ==> r == Ok(false)
    ensures IncludeOptional in config ==>
      r == match toBoolean(config[IncludeOptional])
           case Some(b) => Ok(b)
           case None => Err(ConversionFailed(IncludeOptional))
  {
    GetBoolean(config, IncludeOptional, DefaultIsIncludeOptional, toBoolean)
  }

  /** With neither repository key set there is exactly the one default repository. */
  lemma DefaultRepositories(config: Configuration)
    requires RepositoryNames !in config && RepositoryUrls !in config
    ensures GetRepositories(config) == Ok(map["Maven Central" := "http://repo1.maven.org/maven2"])
  {
    Strings.SplitJoin([DefaultRepositoryName], Comma);
    Strings.SplitJoin([DefaultRepositoryUrl], Comma);
  }

  /** With the key unset the excluded scopes are test, system and provided, in that order. */
  lemma DefaultScopes(config: Configuration)
    requires ExcludedScopes !in config
    ensures GetExcludedScopes(config) == ["test", "system", "provided"]
  {
    assert Strings.Join(["test", "system", "provided"], Comma) == DefaultExcludedScopes;
    Strings.SplitJoin(["test", "system", "provided"], Comma);
  }

  /** With the key unset the only excluded classifier is tests. */
  lemma DefaultClassifiers(config: Configuration)
    requires ExcludedClassifiers !in config
    ensures GetExcludedClassifiers(config) == ["tests"]
  {
  }

  /** Two entries: two distinct names give both entries, the same name twice
      is an error rather than the second value replacing the first. */
  lemma ToMapPair(n1: string, n2: string, u1: string, u2: string)
    ensures n1 != n2 ==> ToMap([n1, n2], [u1, u2]) == Ok(map[n1 := u1, n2 := u2])
    ensures n1 == n2 ==> ToMap([n1, n2], [u1, u2]) == Err(DuplicateKey(n1))
  {
    assert CollectUpTo([n1, n2], [u1, u2], 1) == Ok(map[n1 := u1]);
  }

  /** Two names and two URLs pair up position by position. */
  lemma TwoRepositories(config: Configuration)
    requires config == map[RepositoryNames := "A,B", RepositoryUrls := "u1,u2"]
    ensures GetRepositories(config) == Ok(map["A" := "u1", "B" := "u2"])
  {
    assert "A,B" == "A" + [Comma] + "B" && "u1,u2" == "u1" + [Comma] + "u2";
    Strings.SplitTwo("A", "B", Comma);
    Strings.SplitTwo("u1", "u2", Comma);
    ToMapPair("A", "B", "u1", "u2");
  }

  /** Two names but one URL is rejected. The split hints keep the proof well
      inside its budget; unaided it costs nearly three times as much. */
  lemma MismatchedRepositories(config: Configuration)
    requires config == map[RepositoryNames := "A,B", RepositoryUrls := "u1"]
    ensures GetRepositories(config) == Err(CountMismatch)
  {
    assert "A,B" == "A" + [Comma] + "B";
    Strings.SplitTwo("A", "B", Comma);
    Strings.SplitJoin(["u1"], Comma);
  }

  /** A repeated name fails instead of letting the later URL win. Unaided, the
      proof search often exhausts its budget; the split and pair lemmas below
      give it the two lists and the map directly. */
  lemma DuplicateRepositoryName(config: Configuration)
    requires config == map[RepositoryNames := "A,A", RepositoryUrls := "u1,u2"]
    ensures GetRepositories(config) == Err(DuplicateKey("A"))
  {
    assert "A,A" == "A" + [Comma] + "A" && "u1,u2" == "u1" + [Comma] + "u2";
    Strings.SplitTwo("A", "A", Comma);
    Strings.SplitTwo("u1", "u2", Comma);
    ToMapPair("A", "A", "u1", "u2");
  }
}
