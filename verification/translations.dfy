/** The translation check: every locale file must define every key of the
    Turkish source file; keys only a translation has are reported but do
    not fail the check. */
module Translations {
  import opened Text

  /** A parsed message file. `Node` is an object (or array, whose entries
      are keyed by index); everything else is a `Leaf`. */
  datatype Json = Leaf | Node(entries: seq<(string, Json)>)

  /** The key of a child: `prefix.key`, or just `key` when the prefix is
      empty (and so falsy). */
  function JoinKey(prefix: string, key: string): (r: string)
    ensures prefix == "" ==> r == key
    ensures prefix != "" ==> StartsWith(r, prefix + ".") && r[|prefix| + 1..] == key
  {
    if prefix == "" then key else prefix + "." + key
  }

  /** `getKeys(obj, prefix)` over the entries of `obj` from position `i`
      on: the dotted path of every leaf, in entry order. */
  function GetKeys(obj: Json, i: nat, prefix: string): seq<string>
    requires obj.Node? && i <= |obj.entries|
    decreases obj, |obj.entries| - i
  {
    if i == |obj.entries| then []
    else
      var (key, val) := obj.entries[i];
      var p := JoinKey(prefix, key);
      var here := if val.Node? then GetKeys(val, 0, p) else [p];
      here + GetKeys(obj, i + 1, prefix)
  }

  /** The path of keys to every leaf, in entry order: the reference the
      dotted keys are checked against. */
  function LeafPaths(obj: Json, i: nat): seq<seq<string>>
    requires obj.Node? && i <= |obj.entries|
    decreases obj, |obj.entries| - i
  {
    if i == |obj.entries| then []
    else
      var (key, val) := obj.entries[i];
      var here := if val.Node? then Prepend(key, LeafPaths(val, 0)) else [[key]];
      here + LeafPaths(obj, i + 1)
  }

  function Prepend(key: string, paths: seq<seq<string>>): (r: seq<seq<string>>)
    ensures |r| == |paths| && forall i | 0 <= i < |paths| :: r[i] == [key] + paths[i]
  {
    seq(|paths|, i requires 0 <= i < |paths| => [key] + paths[i])
  }

  /** A path written with dots after `prefix`. */
  function Dotted(prefix: string, path: seq<string>): string
    decreases |path|
  {
    if |path| == 0 then prefix else Dotted(JoinKey(prefix, path[0]), path[1..])
  }

  /** The dotted names of a list of paths. */
  function DottedAll(prefix: string, paths: seq<seq<string>>): (r: seq<string>)
    ensures |r| == |paths| && forall i | 0 <= i < |paths| :: r[i] == Dotted(prefix, paths[i])
  {
    seq(|paths|, i requires 0 <= i < |paths| => Dotted(prefix, paths[i]))
  }

  /** `getKeys` lists exactly the leaves: one key per leaf, in order, each
      the leaf's path joined with dots. Object nodes contribute no key of
      their own. */
  lemma {:induction false} GetKeysAreLeafPaths(obj: Json, i: nat, prefix: string)
    requires obj.Node? && i <= |obj.entries|
    ensures GetKeys(obj, i, prefix) == DottedAll(prefix, LeafPaths(obj, i))
    decreases obj, |obj.entries| - i
  {
    if i < |obj.entries| {
      var (key, val) := obj.entries[i];
      GetKeysAreLeafPaths(obj, i + 1, prefix);
      if val.Node? {
        GetKeysAreLeafPaths(val, 0, JoinKey(prefix, key));
        NodeEntryKeys(obj, i, prefix);
      } else {
        LeafEntryKeys(obj, i, prefix);
      }
    }
  }

  /** An object entry contributes the keys of its own leaves, below its key. */
  lemma NodeEntryKeys(obj: Json, i: nat, prefix: string)
    requires obj.Node? && i < |obj.entries| && obj.entries[i].1.Node?
    requires GetKeys(obj, i + 1, prefix) == DottedAll(prefix, LeafPaths(obj, i + 1))
    requires var (key, val) := obj.entries[i];
      GetKeys(val, 0, JoinKey(prefix, key)) == DottedAll(JoinKey(prefix, key), LeafPaths(val, 0))
    ensures GetKeys(obj, i, prefix) == DottedAll(prefix, LeafPaths(obj, i))
  {
    var (key, val) := obj.entries[i];
    var sub := LeafPaths(val, 0);
    DottedAllAppend(prefix, Prepend(key, sub), LeafPaths(obj, i + 1));
    DottedPrepend(prefix, key, sub);
  }

  /** Any other entry contributes its own key. */
  lemma LeafEntryKeys(obj: Json, i: nat, prefix: string)
    requires obj.Node? && i < |obj.entries| && !obj.entries[i].1.Node?
    requires GetKeys(obj, i + 1, prefix) == DottedAll(prefix, LeafPaths(obj, i + 1))
    ensures GetKeys(obj, i, prefix) == DottedAll(prefix, LeafPaths(obj, i))
  {
    var (key, val) := obj.entries[i];
    assert Dotted(prefix, [key]) == Dotted(JoinKey(prefix, key), []);
    DottedAllAppend(prefix, [[key]], LeafPaths(obj, i + 1));
  }

  /** Paths below `key` are written after `key` is joined to the prefix. */
  lemma DottedPrepend(prefix: string, key: string, sub: seq<seq<string>>)
    ensures DottedAll(prefix, Prepend(key, sub)) == DottedAll(JoinKey(prefix, key), sub)
  {
    forall j | 0 <= j < |sub| ensures DottedAll(prefix, Prepend(key, sub))[j] == DottedAll(JoinKey(prefix, key), sub)[j] {
      assert ([key] + sub[j])[1..] == sub[j];
    }
  }

  lemma DottedAllAppend(prefix: string, a: seq<seq<string>>, b: seq<seq<string>>)
    ensures DottedAll(prefix, a + b) == DottedAll(prefix, a) + DottedAll(prefix, b)
  {
  }

  /** `getKeys(obj)` of a whole message file. */
  function FileKeys(entries: seq<(string, Json)>): seq<string> {
    GetKeys(Node(entries), 0, "")
  }

  /** A top-level leaf's key is its own name, without a prefix. */
  lemma TopLevelLeaf(key: string)
    ensures FileKeys([(key, Leaf)]) == [key]
  {
    var o := Node([(key, Leaf)]);
    assert GetKeys(o, 1, "") == [];
  }

  /** An empty nested object contributes no keys. */
  lemma EmptyObjectNoKeys(key: string)
    ensures FileKeys([(key, Node([]))]) == []
  {
    var o := Node([(key, Node([]))]);
    assert GetKeys(o, 1, "") == [];
    assert GetKeys(Node([]), 0, key) == [];
  }

  /** Below a non-empty prefix every key starts with the prefix and a dot. */
  lemma {:induction false} GetKeysUnderPrefix(obj: Json, i: nat, prefix: string)
    requires obj.Node? && i <= |obj.entries| && prefix != ""
    ensures forall k | k in GetKeys(obj, i, prefix) :: StartsWith(k, prefix + ".")
    decreases obj, |obj.entries| - i
  {
    if i < |obj.entries| {
      var (key, val) := obj.entries[i];
      var p := JoinKey(prefix, key);
      GetKeysUnderPrefix(obj, i + 1, prefix);
      if val.Node? {
        GetKeysUnderPrefix(val, 0, p);
        forall k | k in GetKeys(val, 0, p) ensures StartsWith(k, prefix + ".") {
          assert k[..|prefix| + 1] == p[..|prefix| + 1];
        }
      }
    }
  }

  // ---------------------------------------------------------------------
  // The check over the locale files
  // ---------------------------------------------------------------------

  /** A locale and the set of its keys. */
  datatype LocaleKeys = LocaleKeys(locale: string, keys: set<string>)

  /** `f.replace(".json", "")`: the first ".json" removed. */
  function LocaleOf(file: string): (r: string)
    ensures |r| == |file| || |r| + 5 == |file|
    decreases |file|
  {
    if StartsWith(file, ".json") then file[5..]
    else if |file| == 0 then file
    else [file[0]] + LocaleOf(file[1..])
  }

  /** The message files (those ending in ".json", each holding an object)
      with their keys. */
  function LocaleFiles(files: seq<(string, seq<(string, Json)>)>): (r: seq<LocaleKeys>)
    ensures forall l | l in r :: exists i | 0 <= i < |files| ::
      EndsWith(files[i].0, ".json") && l == LocaleKeys(LocaleOf(files[i].0), set k | k in FileKeys(files[i].1))
    decreases |files|
  {
    if |files| == 0 then []
    else
      var (name, obj) := files[0];
      var here := if EndsWith(name, ".json") then [LocaleKeys(LocaleOf(name), set k | k in FileKeys(obj))] else [];
      var rest := LocaleFiles(files[1..]);
      assert forall l | l in rest :: exists i | 0 <= i < |files| ::
        EndsWith(files[i].0, ".json") && l == LocaleKeys(LocaleOf(files[i].0), set k | k in FileKeys(files[i].1)) by {
        forall l | l in rest ensures exists i | 0 <= i < |files| ::
          EndsWith(files[i].0, ".json") && l == LocaleKeys(LocaleOf(files[i].0), set k | k in FileKeys(files[i].1)) {
          var j :| 0 <= j < |files| - 1 && EndsWith(files[1..][j].0, ".json") && l == LocaleKeys(LocaleOf(files[1..][j].0), set k | k in FileKeys(files[1..][j].1));
          assert files[j + 1] == files[1..][j];
        }
      }
      here + rest
  }

  /** How the check ends: without a Turkish file it cannot run; otherwise
      the count of missing keys, of extra keys, and the exit status. */
  datatype Outcome = NoSource | Checked(errors: nat, extras: nat, exitCode: nat)

  /** The missing keys: per translation, the source keys it lacks. */
  function MissingCount(source: set<string>, others: seq<LocaleKeys>): nat
    decreases |others|
  {
    if |others| == 0 then 0 else |source - others[0].keys| + MissingCount(source, others[1..])
  }

  /** The extra keys: per translation, the keys the source lacks. */
  function ExtraCount(source: set<string>, others: seq<LocaleKeys>): nat
    decreases |others|
  {
    if |others| == 0 then 0 else |others[0].keys - source| + ExtraCount(source, others[1..])
  }

  /** The first locale called "tr". */
  function FindSource(all: seq<LocaleKeys>): (r: nat)
    ensures r <= |all| && (r < |all| ==> all[r].locale == "tr")
    ensures forall i | 0 <= i < r :: all[i].locale != "tr"
  {
    if |all| == 0 then 0 else if all[0].locale == "tr" then 0 else 1 + FindSource(all[1..])
  }

  /** The translations: every locale but "tr". */
  function Others(all: seq<LocaleKeys>): (r: seq<LocaleKeys>)
    ensures forall l | l in r :: l in all && l.locale != "tr"
    ensures forall l | l in all && l.locale != "tr" :: l in r
  {
    if |all| == 0 then [] else (if all[0].locale != "tr" then [all[0]] else []) + Others(all[1..])
  }

  /** The whole check over the locale files. */
  function Check(all: seq<LocaleKeys>): (r: Outcome)
    ensures r.NoSource? <==> forall i | 0 <= i < |all| :: all[i].locale != "tr"
    ensures r.Checked? ==> (r.exitCode == 1 <==> r.errors > 0) && (r.exitCode == 0 <==> r.errors == 0)
  {
    var s := FindSource(all);
    if s == |all| then NoSource
    else
      var source := all[s].keys;
      var errors := MissingCount(source, Others(all));
      Checked(errors, ExtraCount(source, Others(all)), if errors > 0 then 1 else 0)
  }

  /** No error means every translation has every source key. */
  lemma {:induction false} NoMissingIff(source: set<string>, others: seq<LocaleKeys>)
    ensures MissingCount(source, others) == 0 <==> forall l | l in others :: source <= l.keys
    decreases |others|
  {
    if |others| > 0 {
      NoMissingIff(source, others[1..]);
      if source - others[0].keys == {} {
        forall k | k in source ensures k in others[0].keys {
          assert k !in source - others[0].keys;
        }
      } else {
        var k :| k in source - others[0].keys;
      }
      assert forall l | l in others :: l == others[0] || l in others[1..];
    }
  }

  /** The check passes exactly when every translation defines every key of
      the Turkish file. */
  lemma CheckPassesIff(all: seq<LocaleKeys>)
    requires Check(all).Checked?
    ensures var source := all[FindSource(all)].keys;
      Check(all).exitCode == 0 <==> forall l | l in all && l.locale != "tr" :: source <= l.keys
  {
    NoMissingIff(all[FindSource(all)].keys, Others(all));
  }

  /** Keys only a translation has never count as errors: dropping them
      leaves the error count unchanged. */
  lemma {:induction false} ExtrasDoNotCount(source: set<string>, others: seq<LocaleKeys>)
    ensures MissingCount(source, others) == MissingCount(source, Restricted(source, others))
    decreases |others|
  {
    if |others| > 0 {
      ExtrasDoNotCount(source, others[1..]);
      assert source - others[0].keys == source - (others[0].keys * source);
      assert Restricted(source, others)[1..] == Restricted(source, others[1..]);
    }
  }

  /** Each translation's keys cut down to the source's. */
  function Restricted(source: set<string>, others: seq<LocaleKeys>): (r: seq<LocaleKeys>)
    ensures |r| == |others| && forall i | 0 <= i < |others| :: r[i] == LocaleKeys(others[i].locale, others[i].keys * source)
  {
    seq(|others|, i requires 0 <= i < |others| => LocaleKeys(others[i].locale, others[i].keys * source))
  }

  /** Each translation adds the number of source keys it lacks. */
  lemma {:induction false} MissingCountAppend(source: set<string>, others: seq<LocaleKeys>, l: LocaleKeys)
    ensures MissingCount(source, others + [l]) == MissingCount(source, others) + |source - l.keys|
    decreases |others|
  {
    if |others| == 0 {
      assert (others + [l])[1..] == [];
    } else {
      assert (others + [l])[1..] == others[1..] + [l];
      MissingCountAppend(source, others[1..], l);
    }
  }
}
