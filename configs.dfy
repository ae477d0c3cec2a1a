// Configuration selection of ferbot/main.py: the first candidate file that
// exists is read, and every key is lower-cased. Reading and parsing a
// dotenv file is not modelled: the file system is given as a map from each
// path that is an existing file to the items of the dictionary that
// dotenv_values builds from it.

module Configs {
  import opened Wrappers
  import opened Text

  /** No two entries share a key. */
  predicate DistinctKeys(env: seq<(string, Option<string>)>) {
    forall i, j :: 0 <= i < j < |env| ==> env[i].0 != env[j].0
  }

  /** The items of the dictionary parsed from a dotenv file, in its iteration
      order: each key once, at the place of its first appearance in the file,
      with the value of its last assignment; a key without '=' has no value. */
  type Env = env: seq<(string, Option<string>)> | DistinctKeys(env) witness []

  /** The program's settings once built from the lower-cased entries. */
  datatype Config = Config(
    fer: string,
    username: string,
    password: string,
    chromePath: string,
    driverPath: string,
    incompleteDownloads: string,
    destination: string)

  /** The candidate files, in the order they are tried. */
  const Candidates: seq<string> := [".env", ".example.env"]

  /** The entries of the first path in `paths` that is an existing file, or
      nothing when none is. */
  method TryConfigs(paths: seq<string>, files: map<string, Env>) returns (r: Option<Env>)
    ensures r.None? <==> forall i :: 0 <= i < |paths| ==> paths[i] !in files
    ensures r.Some? ==> exists i :: && 0 <= i < |paths|
                                    && paths[i] in files
                                    && r.value == files[paths[i]]
                                    && forall j :: 0 <= j < i ==> paths[j] !in files
  {
    for i := 0 to |paths|
      invariant forall j :: 0 <= j < i ==> paths[j] !in files
    {
      if paths[i] in files {
        return Some(files[paths[i]]);
      }
    }
    return None;
  }

  /** No later entry of `env` has a key that lowers to the same as entry `i`'s. */
  ghost predicate LastOfItsKey(env: Env, i: int)
    requires 0 <= i < |env|
  {
    forall j :: i < j < |env| ==> Lower(env[j].0) != Lower(env[i].0)
  }

  /** The dictionary built from `env` with every key lower-cased; when two
      keys differ only in case, the one later in `env` overwrites the other. */
  function LowerKeys(env: Env): map<string, Option<string>> {
    if env == [] then map[]
    else LowerKeys(env[..|env| - 1])[Lower(env[|env| - 1].0) := env[|env| - 1].1]
  }

  /** The keys of the built dictionary are exactly the lowered keys of `env`. */
  lemma {:induction false} LowerKeysDomain(env: Env)
    ensures forall i :: 0 <= i < |env| ==> Lower(env[i].0) in LowerKeys(env)
    ensures forall k :: k in LowerKeys(env) ==> exists i :: 0 <= i < |env| && Lower(env[i].0) == k
  {
    if env != [] {
      var init := env[..|env| - 1];
      LowerKeysDomain(init);
      assert forall i :: 0 <= i < |init| ==> init[i] == env[i];
    }
  }

  /** Each key maps to the value of the last entry whose key lowers to it. */
  lemma {:induction false} LowerKeysLastWins(env: Env, i: int)
    requires 0 <= i < |env| && LastOfItsKey(env, i)
    ensures Lower(env[i].0) in LowerKeys(env)
    ensures LowerKeys(env)[Lower(env[i].0)] == env[i].1
  {
    var init := env[..|env| - 1];
    if i < |env| - 1 {
      assert init[i] == env[i];
      assert LastOfItsKey(init, i) by {
        forall j | i < j < |init| ensures Lower(init[j].0) != Lower(init[i].0) {
          assert init[j] == env[j];
        }
      }
      LowerKeysLastWins(init, i);
      assert Lower(env[|env| - 1].0) != Lower(env[i].0);
    }
  }

  /** A file assigning FER, then fer, then FER again parses to the items
      FER (last value) and fer, in that order; lower-casing then keeps fer's
      value, since fer comes later in the dictionary. */
  lemma RepeatedKeyKeepsDictionaryOrder()
    ensures LowerKeys([("FER", Some("c")), ("fer", Some("b"))]) == map["fer" := Some("b")]
  {
    assert Lower("FER") == "fer";
    assert Lower("fer") == "fer";
  }

  /** Every key of the built dictionary is already in lower case. */
  lemma LowerKeysAreLowerCase(env: Env)
    ensures forall k :: k in LowerKeys(env) ==> Lower(k) == k
  {
    LowerKeysDomain(env);
    forall k | k in LowerKeys(env) ensures Lower(k) == k {
      var i :| 0 <= i < |env| && Lower(env[i].0) == k;
      LowerIsLower(env[i].0);
    }
  }
}
