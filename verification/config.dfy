/** The configuration resolver of `src/config.rs`: the glob -> (holder,
    license) table built from the command line or from TOML config files,
    and the conflict rule that keeps every glob bound to one pair.

    The TOML text, the file system and `Path` handling are parameters: a
    config file is given by the tables it parses to, the directory that
    holds it, and the function that joins that directory with a glob
    (`Path::join` followed by `into_utf8`, which fails on non-UTF-8 paths). */
module Config {
  import opened Wrappers
  import opened Lex

  /** The (holder, license) pair a glob is bound to. */
  datatype Claim = Claim(holder: string, license: string)

  /** `Config`: glob -> (holder, license). */
  type GlobMap = map<string, Claim>

  datatype ConfigError =
    | Unreadable(path: string)
    | NoParentDirectory(path: string)
    | NotUtf8(glob: string)
    | Conflict(glob: string, existing: Claim, incoming: Claim)
    | InlineWithDefaultConfig(defaultPath: string)
    | NoConfigFound

  /** Two tables bind every glob they share to the same pair. */
  predicate Agree(a: GlobMap, b: GlobMap) {
    forall k :: k in a && k in b ==> a[k] == b[k]
  }

  /** `Config::inline`: every glob of the list bound to the one pair; a glob
      listed again is skipped (the source only warns). */
  function Inline(holder: string, license: string, globList: seq<string>): (r: GlobMap)
    ensures r.Keys == set g | g in globList
    ensures forall g :: g in r ==> r[g] == Claim(holder, license)
  {
    InlineInto(map[], Claim(holder, license), globList)
  }

  function InlineInto(acc: GlobMap, claim: Claim, globs: seq<string>): (r: GlobMap)
    ensures r.Keys == acc.Keys + set g | g in globs
    ensures forall g :: g in acc ==> r[g] == acc[g]
    ensures forall g :: g in r && g !in acc ==> r[g] == claim
    decreases |globs|
  {
    if globs == [] then acc
    else
      var acc' := if globs[0] in acc then acc else acc[globs[0] := claim];
      var r := InlineInto(acc', claim, globs[1..]);
      assert (set g | g in globs) == {globs[0]} + set g | g in globs[1..];
      r
  }

  /** Binding `glob` to `claim` under the conflict rule shared by `build`
      and `absorb`: a new glob is added, the same pair again is kept once,
      a different pair is a conflict. */
  function Insert(acc: GlobMap, glob: string, claim: Claim): (r: Result<GlobMap, ConfigError>)
    ensures r.Ok? <==> glob !in acc || acc[glob] == claim
    ensures r.Ok? ==> r.value == acc[glob := claim]
    ensures r.Err? ==> r.error == Conflict(glob, acc[glob], claim)
  {
    if glob !in acc then Ok(acc[glob := claim])
    else if acc[glob] == claim then Ok(acc)
    else Err(Conflict(glob, acc[glob], claim))
  }

  /** The entries to insert, in order: a glob and the pair it is bound to. */
  type Entries = seq<(string, Claim)>

  /** No glob of `entries` is bound in `acc` to another pair. */
  predicate Compatible(acc: GlobMap, entries: Entries) {
    forall i :: 0 <= i < |entries| && entries[i].0 in acc ==> acc[entries[i].0] == entries[i].1
  }

  /** No glob appears twice in `entries` with two different pairs. */
  predicate SelfConsistent(entries: Entries) {
    forall i, j :: 0 <= i < |entries| && 0 <= j < |entries| && entries[i].0 == entries[j].0 ==>
      entries[i].1 == entries[j].1
  }

  function KeysOf(entries: Entries): set<string> {
    set i | 0 <= i < |entries| :: entries[i].0
  }

  /** Inserting `entries` one after the other, stopping at the first conflict. */
  function MergeInto(acc: GlobMap, entries: Entries): (r: Result<GlobMap, ConfigError>)
    ensures r.Ok? <==> Compatible(acc, entries) && SelfConsistent(entries)
    ensures r.Ok? ==> r.value.Keys == acc.Keys + KeysOf(entries)
    ensures r.Ok? ==> forall k :: k in acc ==> r.value[k] == acc[k]
    ensures r.Ok? ==> forall i :: 0 <= i < |entries| ==> r.value[entries[i].0] == entries[i].1
    decreases |entries|
  {
    if entries == [] then Ok(acc)
    else
      match Insert(acc, entries[0].0, entries[0].1)
      case Err(e) => Err(e)
      case Ok(acc') =>
        var r := MergeInto(acc', entries[1..]);
        MergeStep(acc, entries, acc', r);
        r
  }

  lemma MergeStep(acc: GlobMap, entries: Entries, acc': GlobMap, r: Result<GlobMap, ConfigError>)
    requires entries != []
    requires acc' == acc[entries[0].0 := entries[0].1]
    requires entries[0].0 !in acc || acc[entries[0].0] == entries[0].1
    requires r.Ok? <==> Compatible(acc', entries[1..]) && SelfConsistent(entries[1..])
    requires r.Ok? ==> r.value.Keys == acc'.Keys + KeysOf(entries[1..])
    requires r.Ok? ==> forall k :: k in acc' ==> r.value[k] == acc'[k]
    requires r.Ok? ==> forall i :: 0 <= i < |entries[1..]| ==> r.value[entries[1..][i].0] == entries[1..][i].1
    ensures r.Ok? <==> Compatible(acc, entries) && SelfConsistent(entries)
    ensures r.Ok? ==> r.value.Keys == acc.Keys + KeysOf(entries)
    ensures r.Ok? ==> forall k :: k in acc ==> r.value[k] == acc[k]
    ensures r.Ok? ==> forall i :: 0 <= i < |entries| ==> r.value[entries[i].0] == entries[i].1
  {
    var rest := entries[1..];
    KeysOfCons(entries);
    ConsistencyCons(acc, entries, acc');
    if r.Ok? {
      forall i | 0 <= i < |entries|
        ensures r.value[entries[i].0] == entries[i].1
      {
        if i > 0 {
          assert rest[i - 1] == entries[i];
        }
      }
    }
  }

  lemma KeysOfCons(entries: Entries)
    requires entries != []
    ensures KeysOf(entries) == {entries[0].0} + KeysOf(entries[1..])
  {
    var rest := entries[1..];
    forall k | k in KeysOf(entries)
      ensures k in {entries[0].0} + KeysOf(rest)
    {
      var i :| 0 <= i < |entries| && entries[i].0 == k;
      if i > 0 {
        assert rest[i - 1].0 == k;
      }
    }
    forall k | k in KeysOf(rest)
      ensures k in KeysOf(entries)
    {
      var i :| 0 <= i < |rest| && rest[i].0 == k;
      assert entries[i + 1].0 == k;
    }
  }

  /** After inserting the first entry, the rest merges without conflict
      exactly when all of them did. */
  lemma ConsistencyCons(acc: GlobMap, entries: Entries, acc': GlobMap)
    requires entries != []
    requires acc' == acc[entries[0].0 := entries[0].1]
    requires entries[0].0 !in acc || acc[entries[0].0] == entries[0].1
    ensures Compatible(acc', entries[1..]) && SelfConsistent(entries[1..]) <==>
      Compatible(acc, entries) && SelfConsistent(entries)
  {
    var rest := entries[1..];
    if Compatible(acc', rest) && SelfConsistent(rest) {
      assert Compatible(acc, entries) && SelfConsistent(entries) by {
        forall i, j | 0 <= i < |entries| && 0 <= j < |entries| && entries[i].0 == entries[j].0
          ensures entries[i].1 == entries[j].1
        {
          if i > 0 && j > 0 {
            assert rest[i - 1] == entries[i] && rest[j - 1] == entries[j];
          } else if i > 0 {
            assert rest[i - 1] == entries[i];
          } else if j > 0 {
            assert rest[j - 1] == entries[j];
          }
        }
        forall i | 0 <= i < |entries| && entries[i].0 in acc
          ensures acc[entries[i].0] == entries[i].1
        {
          if i > 0 {
            assert rest[i - 1] == entries[i];
          }
        }
      }
    }
    if Compatible(acc, entries) && SelfConsistent(entries) {
      assert Compatible(acc', rest) by {
        forall i | 0 <= i < |rest| && rest[i].0 in acc'
          ensures acc'[rest[i].0] == rest[i].1
        {
          assert rest[i] == entries[i + 1];
        }
      }
      assert SelfConsistent(rest) by {
        forall i, j | 0 <= i < |rest| && 0 <= j < |rest| && rest[i].0 == rest[j].0
          ensures rest[i].1 == rest[j].1
        {
          assert rest[i] == entries[i + 1] && rest[j] == entries[j + 1];
        }
      }
    }
  }

  /** Merging a table's own entries, in `into_iter` order, into an empty
      table gives the table back. */
  lemma IntoIterRebuilds(c: GlobMap)
    ensures MergeInto(map[], IntoIter(c)) == Ok(c)
  {
    IntoIterConsistent(c);
    RebuildsFrom(c, IntoIter(c));
  }

  /** Entries that list exactly the bindings of `c`, each glob with one
      pair, rebuild `c` when merged into an empty table. */
  lemma RebuildsFrom(c: GlobMap, es: Entries)
    requires forall i :: 0 <= i < |es| ==> es[i].0 in c && es[i].1 == c[es[i].0]
    requires KeysOf(es) == c.Keys && SelfConsistent(es)
    ensures MergeInto(map[], es) == Ok(c)
  {
    var r := MergeInto(map[], es);
    assert Compatible(map[], es);
    var m := r.value;
    forall k | k in c
      ensures m[k] == c[k]
    {
      assert k in KeysOf(es);
      var i :| 0 <= i < |es| && es[i].0 == k;
    }
    MapsEqual(m, c);
  }


  /** Where the entries of `into_iter` bind the glob `k`. */
  lemma IntoIterLookup(c: GlobMap, k: string) returns (i: nat)
    requires k in c
    ensures i < |IntoIter(c)| && IntoIter(c)[i] == (k, c[k])
  {
    var es := IntoIter(c);
    assert k in KeysOf(es);
    i :| 0 <= i < |es| && es[i].0 == k;
  }

  lemma MapsEqual(a: GlobMap, b: GlobMap)
    requires a.Keys == b.Keys
    requires forall k :: k in b ==> a[k] == b[k]
    ensures a == b
  {
  }

  lemma IntoIterConsistent(c: GlobMap)
    ensures SelfConsistent(IntoIter(c))
  {
  }

  /** `Config::into_iter`: the (glob, pair) entries in ascending glob order,
      each glob of the table exactly once. */
  function IntoIter(c: GlobMap): (r: Entries)
    ensures |r| == |c.Keys|
    ensures forall i :: 0 <= i < |r| ==> r[i].0 in c && r[i].1 == c[r[i].0]
    ensures StrictlySorted(GlobsOf(r))
    ensures KeysOf(r) == c.Keys
  {
    var ks := SortedKeys(c.Keys);
    var r := seq(|ks|, i requires 0 <= i < |ks| => (ks[i], c[ks[i]]));
    PairedWithKeys(c, ks, r);
    r
  }

  /** Entries that pair each of the sorted keys with its value cover the
      map's keys, in the keys' order. */
  lemma PairedWithKeys(c: GlobMap, ks: seq<string>, r: Entries)
    requires forall k :: k in c <==> k in ks
    requires StrictlySorted(ks) && |ks| == |c.Keys|
    requires |r| == |ks| && forall i :: 0 <= i < |ks| ==> r[i] == (ks[i], c[ks[i]])
    ensures |r| == |c.Keys|
    ensures forall i :: 0 <= i < |r| ==> r[i].0 in c && r[i].1 == c[r[i].0]
    ensures StrictlySorted(GlobsOf(r))
    ensures KeysOf(r) == c.Keys
  {
    assert GlobsOf(r) == ks;
    forall k | k in c
      ensures k in KeysOf(r)
    {
      var i :| 0 <= i < |ks| && ks[i] == k;
      assert r[i].0 == k;
    }
  }

  /** The globs of `entries`, in order. */
  function GlobsOf(entries: Entries): (r: seq<string>)
    ensures |r| == |entries|
    ensures forall i :: 0 <= i < |r| ==> r[i] == entries[i].0
  {
    seq(|entries|, i requires 0 <= i < |entries| => entries[i].0)
  }

  /** `Config::absorb`: merges `other` into `self`. It fails exactly when
      the two bind a shared glob to different pairs; otherwise `self` keeps
      its bindings and gains the globs only `other` has. */
  function Absorb(self: GlobMap, other: GlobMap): (r: Result<GlobMap, ConfigError>)
    ensures r.Ok? <==> Agree(self, other)
    ensures r.Ok? ==> r.value == other + self
    ensures r.Err? ==> r.error.Conflict? && r.error.glob in self && r.error.glob in other
  {
    AbsorbFacts(self, other);
    MergeInto(self, IntoIter(other))
  }

  lemma AbsorbFacts(self: GlobMap, other: GlobMap)
    ensures MergeInto(self, IntoIter(other)).Ok? <==> Agree(self, other)
    ensures MergeInto(self, IntoIter(other)).Ok? ==> MergeInto(self, IntoIter(other)).value == other + self
    ensures MergeInto(self, IntoIter(other)).Err? ==>
      var e := MergeInto(self, IntoIter(other)).error;
      e.Conflict? && e.glob in self && e.glob in other
  {
    AbsorbSucceeds(self, other);
    if MergeInto(self, IntoIter(other)).Ok? {
      AbsorbValue(self, other);
    } else {
      AbsorbConflict(self, other);
    }
  }

  lemma AbsorbSucceeds(self: GlobMap, other: GlobMap)
    ensures MergeInto(self, IntoIter(other)).Ok? <==> Agree(self, other)
  {
    var es := IntoIter(other);
    IntoIterConsistent(other);
    if Compatible(self, es) {
      forall k | k in self && k in other
        ensures self[k] == other[k]
      {
        var i := IntoIterLookup(other, k);
      }
    }
  }

  lemma AbsorbValue(self: GlobMap, other: GlobMap)
    requires MergeInto(self, IntoIter(other)).Ok?
    ensures MergeInto(self, IntoIter(other)).value == other + self
  {
    var m := MergeInto(self, IntoIter(other)).value;
    forall k | k in other && k !in self
      ensures m[k] == other[k]
    {
      var i := IntoIterLookup(other, k);
    }
    UnionOf(self, other, m);
  }

  lemma UnionOf(self: GlobMap, other: GlobMap, m: GlobMap)
    requires m.Keys == self.Keys + other.Keys
    requires forall k :: k in self ==> m[k] == self[k]
    requires forall k :: k in other && k !in self ==> m[k] == other[k]
    ensures m == other + self
  {
    MapsEqual(m, other + self);
  }

  lemma AbsorbConflict(self: GlobMap, other: GlobMap)
    requires MergeInto(self, IntoIter(other)).Err?
    ensures var e := MergeInto(self, IntoIter(other)).error;
      e.Conflict? && e.glob in self && e.glob in other
  {
    var es := IntoIter(other);
    MergeErrorIsConflict(self, es);
    var e := MergeInto(self, es).error;
    var i :| ConflictAtIndex(self, es, e, i);
    forall j | 0 <= j < i
      ensures es[j].0 != es[i].0
    {
      assert LexLess(GlobsOf(es)[j], GlobsOf(es)[i]);
      LexAsymmetric(GlobsOf(es)[j], GlobsOf(es)[i]);
    }
  }

  /** A merge fails on a conflict between an entry and an earlier binding of
      its glob, made either by the table merged into or by an earlier entry. */
  lemma {:induction false} MergeErrorIsConflict(acc: GlobMap, entries: Entries)
    requires MergeInto(acc, entries).Err?
    ensures exists i :: ConflictAtIndex(acc, entries, MergeInto(acc, entries).error, i)
    decreases |entries|
  {
    var r := Insert(acc, entries[0].0, entries[0].1);
    var e := MergeInto(acc, entries).error;
    if r.Ok? {
      MergeErrorIsConflict(r.value, entries[1..]);
      var rest := entries[1..];
      var i :| ConflictAtIndex(r.value, rest, e, i);
      assert entries[i + 1] == rest[i];
      if e.glob in r.value && r.value[e.glob] == e.existing {
        if e.glob !in acc || acc[e.glob] != e.existing {
          assert entries[0] == (e.glob, e.existing);
        }
      } else {
        var j :| 0 <= j < i && rest[j] == (e.glob, e.existing);
        assert entries[j + 1] == rest[j];
      }
      assert ConflictAtIndex(acc, entries, e, i + 1);
    } else {
      assert ConflictAtIndex(acc, entries, e, 0);
    }
  }

  /** Entry `i` is the one a merge of `entries` into `acc` reports as the
      conflict `e`. */
  predicate ConflictAtIndex(acc: GlobMap, entries: Entries, e: ConfigError, i: int) {
    && e.Conflict?
    && e.existing != e.incoming
    && 0 <= i < |entries|
    && entries[i] == (e.glob, e.incoming)
    && ((e.glob in acc && acc[e.glob] == e.existing) || exists j :: 0 <= j < i && entries[j] == (e.glob, e.existing))
  }

  /** `TomlConfig`: holder -> glob -> license, as a config file parses. */
  type TomlConfig = map<string, map<string, string>>

  /** One holder's table as (glob, pair) entries, globs ascending. */
  function TableEntries(holder: string, table: map<string, string>): (r: Entries)
    ensures forall i :: 0 <= i < |r| ==> r[i].0 in table && r[i].1 == Claim(holder, table[r[i].0])
    ensures forall g :: g in table ==> (g, Claim(holder, table[g])) in r
  {
    var gs := SortedKeys(table.Keys);
    var r := seq(|gs|, i requires 0 <= i < |gs| => (gs[i], Claim(holder, table[gs[i]])));
    assert forall g :: g in table ==> (g, Claim(holder, table[g])) in r by {
      forall g | g in table
        ensures (g, Claim(holder, table[g])) in r
      {
        assert g in gs;
        var i :| 0 <= i < |gs| && gs[i] == g;
        assert r[i] == (g, Claim(holder, table[g]));
      }
    }
    r
  }

  /** Where the parts of a concatenation sit in it. */
  lemma ConcatIndex<T>(a: seq<T>, b: seq<T>)
    ensures forall i :: 0 <= i < |a| ==> (a + b)[i] == a[i]
    ensures forall i :: 0 <= i < |b| ==> (a + b)[|a| + i] == b[i]
  {
  }

  /** The entries of the listed holders' tables, one holder after the other. */
  function HolderEntries(raw: TomlConfig, holders: seq<string>): (r: Entries)
    requires forall h :: h in holders ==> h in raw
    ensures forall i :: 0 <= i < |r| ==> RawBinding(raw, r[i].1.holder, r[i].0, r[i].1)
    ensures forall h, g :: h in holders && g in raw[h] ==> (g, Claim(h, raw[h][g])) in r
  {
    if holders == [] then []
    else
      var first := TableEntries(holders[0], raw[holders[0]]);
      var rest := HolderEntries(raw, holders[1..]);
      ConcatIndex(first, rest);
      first + rest
  }

  /** `raw` lists glob `g` under holder `h` with the pair's license. */
  predicate RawBinding(raw: TomlConfig, h: string, g: string, claim: Claim) {
    h in raw && g in raw[h] && claim == Claim(h, raw[h][g])
  }

  /** The entries `build` visits, in its order: holders ascending and, under
      each holder, globs ascending. */
  function RawEntries(raw: TomlConfig): (r: Entries)
    ensures forall i :: 0 <= i < |r| ==> RawBinding(raw, r[i].1.holder, r[i].0, r[i].1)
    ensures forall h, g :: h in raw && g in raw[h] ==> (g, Claim(h, raw[h][g])) in r
  {
    var hs := SortedKeys(raw.Keys);
    HolderEntries(raw, hs)
  }

  /** Every entry's glob joins onto the directory. */
  predicate Joins(dir: string, join: (string, string) -> Option<string>, entries: Entries) {
    forall i :: 0 <= i < |entries| ==> join(dir, entries[i].0).Some?
  }

  /** The entries with each glob resolved against the directory. */
  function Resolve(dir: string, join: (string, string) -> Option<string>, entries: Entries): (r: Entries)
    requires Joins(dir, join, entries)
    ensures |r| == |entries|
    ensures forall i :: 0 <= i < |r| ==> r[i] == (join(dir, entries[i].0).value, entries[i].1)
  {
    seq(|entries|, i requires 0 <= i < |entries| => (join(dir, entries[i].0).value, entries[i].1))
  }

  /** The loop of `build`: resolve each glob and insert it under the
      conflict rule, stopping at the first failure. */
  function BuildInto(acc: GlobMap, dir: string, join: (string, string) -> Option<string>, entries: Entries): (r: Result<GlobMap, ConfigError>)
    ensures Joins(dir, join, entries) ==> r == MergeInto(acc, Resolve(dir, join, entries))
    ensures !Joins(dir, join, entries) ==> r.Err?
    decreases |entries|
  {
    if entries == [] then Ok(acc)
    else
      match join(dir, entries[0].0)
      case None => Err(NotUtf8(entries[0].0))
      case Some(key) =>
        match Insert(acc, key, entries[0].1)
        case Err(e) => Err(e)
        case Ok(acc') =>
          var r := BuildInto(acc', dir, join, entries[1..]);
          assert Joins(dir, join, entries) ==> Resolve(dir, join, entries)[1..] == Resolve(dir, join, entries[1..]);
          r
  }

  /** Every glob of the file joins onto the directory. */
  predicate ResolvesAll(raw: TomlConfig, dir: string, join: (string, string) -> Option<string>) {
    forall h, g :: h in raw && g in raw[h] ==> join(dir, g).Some?
  }

  /** No two globs of the file resolve to one path with two different
      pairs. */
  predicate Unambiguous(raw: TomlConfig, dir: string, join: (string, string) -> Option<string>) {
    forall h1, g1, h2, g2 ::
      h1 in raw && g1 in raw[h1] && h2 in raw && g2 in raw[h2] && join(dir, g1) == join(dir, g2) ==>
        h1 == h2 && raw[h1][g1] == raw[h2][g2]
  }

  /** `Config::build`, given the parsed file and its parent directory: the
      globs are resolved against the directory, and the file is rejected
      when it has no parent, when a glob does not resolve, or when two
      globs resolve to one path with different pairs. */
  function Build(path: string, raw: TomlConfig, parent: Option<string>, join: (string, string) -> Option<string>): (r: Result<GlobMap, ConfigError>)
    ensures parent.None? ==> r == Err(NoParentDirectory(path))
    ensures r.Ok? <==> parent.Some? && ResolvesAll(raw, parent.value, join) && Unambiguous(raw, parent.value, join)
    ensures r.Ok? ==> forall h, g :: h in raw && g in raw[h] ==>
      join(parent.value, g).value in r.value && r.value[join(parent.value, g).value] == Claim(h, raw[h][g])
    ensures r.Ok? ==> forall k :: k in r.value ==> exists h, g :: h in raw && g in raw[h] && join(parent.value, g) == Some(k)
  {
    match parent
    case None => Err(NoParentDirectory(path))
    case Some(dir) =>
      BuildFacts(raw, dir, join);
      BuildInto(map[], dir, join, RawEntries(raw))
  }

  lemma BuildFacts(raw: TomlConfig, dir: string, join: (string, string) -> Option<string>)
    ensures BuildInto(map[], dir, join, RawEntries(raw)).Ok? <==> ResolvesAll(raw, dir, join) && Unambiguous(raw, dir, join)
    ensures BuildInto(map[], dir, join, RawEntries(raw)).Ok? ==>
      var m := BuildInto(map[], dir, join, RawEntries(raw)).value;
      && (forall h, g :: h in raw && g in raw[h] ==> join(dir, g).value in m && m[join(dir, g).value] == Claim(h, raw[h][g]))
      && (forall k :: k in m ==> exists h, g :: h in raw && g in raw[h] && join(dir, g) == Some(k))
  {
    var es := RawEntries(raw);
    ResolvesAllJoins(raw, dir, join);
    if Joins(dir, join, es) {
      var res := Resolve(dir, join, es);
      assert Compatible(map[], res);
      if SelfConsistent(res) {
        ConsistentUnambiguous(raw, dir, join);
        BuildValues(raw, dir, join);
        BuildKeys(raw, dir, join);
      } else if Unambiguous(raw, dir, join) {
        UnambiguousConsistent(raw, dir, join);
      }
    }
  }

  /** Where `build` visits the glob `g` of holder `h`. */
  lemma RawEntryOf(raw: TomlConfig, h: string, g: string) returns (i: nat)
    requires h in raw && g in raw[h]
    ensures i < |RawEntries(raw)| && RawEntries(raw)[i] == (g, Claim(h, raw[h][g]))
  {
    var es := RawEntries(raw);
    assert (g, Claim(h, raw[h][g])) in es;
    i :| 0 <= i < |es| && es[i] == (g, Claim(h, raw[h][g]));
  }

  lemma RawEntryAt(raw: TomlConfig, i: nat)
    requires i < |RawEntries(raw)|
    ensures var e := RawEntries(raw)[i];
      e.1.holder in raw && e.0 in raw[e.1.holder] && e.1 == Claim(e.1.holder, raw[e.1.holder][e.0])
  {
    var e := RawEntries(raw)[i];
    assert RawBinding(raw, e.1.holder, e.0, e.1);
  }

  lemma BuildValues(raw: TomlConfig, dir: string, join: (string, string) -> Option<string>)
    requires Joins(dir, join, RawEntries(raw))
    requires MergeInto(map[], Resolve(dir, join, RawEntries(raw))).Ok?
    ensures var m := MergeInto(map[], Resolve(dir, join, RawEntries(raw))).value;
      forall h, g :: h in raw && g in raw[h] ==>
        join(dir, g).value in m && m[join(dir, g).value] == Claim(h, raw[h][g])
  {
    var res := Resolve(dir, join, RawEntries(raw));
    var m := MergeInto(map[], res).value;
    forall h, g | h in raw && g in raw[h]
      ensures join(dir, g).value in m && m[join(dir, g).value] == Claim(h, raw[h][g])
    {
      var i := RawEntryOf(raw, h, g);
      assert res[i] == (join(dir, g).value, Claim(h, raw[h][g]));
      assert res[i].0 in KeysOf(res);
    }
  }

  lemma BuildKeys(raw: TomlConfig, dir: string, join: (string, string) -> Option<string>)
    requires Joins(dir, join, RawEntries(raw))
    requires MergeInto(map[], Resolve(dir, join, RawEntries(raw))).Ok?
    ensures var m := MergeInto(map[], Resolve(dir, join, RawEntries(raw))).value;
      forall k :: k in m ==> exists h, g :: h in raw && g in raw[h] && join(dir, g) == Some(k)
  {
    var es := RawEntries(raw);
    var res := Resolve(dir, join, es);
    var m := MergeInto(map[], res).value;
    forall k | k in m
      ensures exists h, g :: h in raw && g in raw[h] && join(dir, g) == Some(k)
    {
      assert k in KeysOf(res);
      var i :| 0 <= i < |res| && res[i].0 == k;
      RawEntryAt(raw, i);
    }
  }

  lemma ResolvesAllJoins(raw: TomlConfig, dir: string, join: (string, string) -> Option<string>)
    ensures Joins(dir, join, RawEntries(raw)) <==> ResolvesAll(raw, dir, join)
  {
    var es := RawEntries(raw);
    if Joins(dir, join, es) {
      forall h, g | h in raw && g in raw[h]
        ensures join(dir, g).Some?
      {
        var i := RawEntryOf(raw, h, g);
      }
    }
    if ResolvesAll(raw, dir, join) {
      forall i | 0 <= i < |es|
        ensures join(dir, es[i].0).Some?
      {
        RawEntryAt(raw, i);
      }
    }
  }

  lemma ConsistentUnambiguous(raw: TomlConfig, dir: string, join: (string, string) -> Option<string>)
    requires Joins(dir, join, RawEntries(raw))
    requires SelfConsistent(Resolve(dir, join, RawEntries(raw)))
    ensures Unambiguous(raw, dir, join)
  {
    var es := RawEntries(raw);
    var res := Resolve(dir, join, es);
    forall h1, g1, h2, g2 |
      h1 in raw && g1 in raw[h1] && h2 in raw && g2 in raw[h2] && join(dir, g1) == join(dir, g2)
      ensures h1 == h2 && raw[h1][g1] == raw[h2][g2]
    {
      var i := RawEntryOf(raw, h1, g1);
      var j := RawEntryOf(raw, h2, g2);
      assert res[i].0 == res[j].0;
    }
  }

  lemma UnambiguousConsistent(raw: TomlConfig, dir: string, join: (string, string) -> Option<string>)
    requires Joins(dir, join, RawEntries(raw))
    requires Unambiguous(raw, dir, join)
    ensures SelfConsistent(Resolve(dir, join, RawEntries(raw)))
  {
    var es := RawEntries(raw);
    var res := Resolve(dir, join, es);
    forall i, j | 0 <= i < |res| && 0 <= j < |res| && res[i].0 == res[j].0
      ensures res[i].1 == res[j].1
    {
      RawEntryAt(raw, i);
      RawEntryAt(raw, j);
      UseUnambiguous(raw, dir, join, es[i].1.holder, es[i].0, es[j].1.holder, es[j].0);
    }
  }

  lemma UseUnambiguous(raw: TomlConfig, dir: string, join: (string, string) -> Option<string>, h1: string, g1: string, h2: string, g2: string)
    requires Unambiguous(raw, dir, join)
    requires h1 in raw && g1 in raw[h1] && h2 in raw && g2 in raw[h2] && join(dir, g1) == join(dir, g2)
    ensures h1 == h2 && raw[h1][g1] == raw[h2][g2]
  {
  }

  /** What `load_config` reaches outside the model: the config file found in
      the current directory (`find_config_path`), reading and parsing a
      file (`None` when either fails), `Path::parent`, and `Path::join`
      followed by the UTF-8 conversion. */
  datatype Sources = Sources(
    defaultConfig: Option<string>,
    load: string -> Option<TomlConfig>,
    parentOf: string -> Option<string>,
    join: (string, string) -> Option<string>)

  /** `Config::build(path)` with the file read and parsed first. */
  function BuildPath(src: Sources, path: string): (r: Result<GlobMap, ConfigError>)
    ensures src.load(path).None? ==> r == Err(Unreadable(path))
    ensures src.load(path).Some? ==> r == Build(path, src.load(path).value, src.parentOf(path), src.join)
  {
    match src.load(path)
    case None => Err(Unreadable(path))
    case Some(raw) => Build(path, raw, src.parentOf(path), src.join)
  }

  /** The outcome of building each listed file. Building is free of side
      effects here, so building them all before merging gives what the
      source's build-then-absorb loop gives. */
  function BuildAll(src: Sources, files: seq<string>): (r: seq<Result<GlobMap, ConfigError>>)
    ensures |r| == |files|
    ensures forall i :: 0 <= i < |files| ==> r[i] == BuildPath(src, files[i])
  {
    seq(|files|, i requires 0 <= i < |files| => BuildPath(src, files[i]))
  }

  /** Every file built. */
  predicate AllOk(built: seq<Result<GlobMap, ConfigError>>) {
    forall i :: 0 <= i < |built| ==> built[i].Ok?
  }

  /** The built tables agree with each other. */
  predicate PairwiseAgree(built: seq<Result<GlobMap, ConfigError>>)
    requires AllOk(built)
  {
    forall i, j :: 0 <= i < |built| && 0 <= j < |built| ==> Agree(built[i].value, built[j].value)
  }

  /** The loop of `load_config` over the remaining files: absorb each built
      table, stopping at the first failure. */
  function AbsorbAll(acc: GlobMap, built: seq<Result<GlobMap, ConfigError>>): Result<GlobMap, ConfigError>
    decreases |built|
  {
    if built == [] then Ok(acc)
    else
      match built[0]
      case Err(e) => Err(e)
      case Ok(next) =>
        match Absorb(acc, next)
        case Err(e) => Err(e)
        case Ok(acc') => AbsorbAll(acc', built[1..])
  }

  /** `acc` agrees with every built table. */
  predicate AgreesWithAll(acc: GlobMap, built: seq<Result<GlobMap, ConfigError>>)
    requires AllOk(built)
  {
    forall i :: 0 <= i < |built| ==> Agree(acc, built[i].value)
  }

  /** `m` binds every glob of every built table as that table does. */
  predicate KeepsAll(built: seq<Result<GlobMap, ConfigError>>, m: GlobMap)
    requires AllOk(built)
  {
    forall i, k :: 0 <= i < |built| && k in built[i].value ==> k in m && m[k] == built[i].value[k]
  }

  /** Some built table binds `glob`. */
  predicate FromSome(built: seq<Result<GlobMap, ConfigError>>, glob: string)
    requires AllOk(built)
  {
    exists i :: 0 <= i < |built| && glob in built[i].value
  }

  /** `r`, the outcome of absorbing the built tables into `acc`, is a
      success exactly when all built and every two of them, `acc` included,
      agree; and then it keeps the bindings of `acc` and of every table, and
      has no others. */
  predicate AbsorbsAll(acc: GlobMap, built: seq<Result<GlobMap, ConfigError>>, r: Result<GlobMap, ConfigError>) {
    && (r.Ok? <==> AllOk(built) && AgreesWithAll(acc, built) && PairwiseAgree(built))
    && (r.Ok? ==> forall k :: k in acc ==> k in r.value && r.value[k] == acc[k])
    && (r.Ok? ==> KeepsAll(built, r.value))
    && (r.Ok? ==> forall k :: k in r.value ==> k in acc || FromSome(built, k))
  }

  lemma {:induction false} AbsorbAllSpec(acc: GlobMap, built: seq<Result<GlobMap, ConfigError>>)
    ensures AbsorbsAll(acc, built, AbsorbAll(acc, built))
    decreases |built|
  {
    if built != [] && built[0].Ok? && Agree(acc, built[0].value) {
      var acc' := built[0].value + acc;
      AbsorbAllSpec(acc', built[1..]);
      AbsorbAllStep(acc, built, acc', AbsorbAll(acc', built[1..]));
    }
  }

  lemma AbsorbAllStep(acc: GlobMap, built: seq<Result<GlobMap, ConfigError>>, acc': GlobMap, r: Result<GlobMap, ConfigError>)
    requires built != [] && built[0].Ok? && Agree(acc, built[0].value)
    requires acc' == built[0].value + acc
    requires AbsorbsAll(acc', built[1..], r)
    ensures AbsorbsAll(acc, built, r)
  {
    var next := built[0].value;
    var rest := built[1..];
    AllOkCons(built);
    if AllOk(built) {
      AgreesWithAllCons(acc, built);
      PairwiseCons(built);
      AgreesWithAllUnion(acc, next, rest);
    }
    if r.Ok? {
      KeepsAllCons(built, r.value);
      forall k | k in r.value
        ensures k in acc || FromSome(built, k)
      {
        FromSomeCons(built, k);
      }
    }
  }

  /** A sequence of built tables is all built when its head and tail are. */
  lemma AllOkCons(built: seq<Result<GlobMap, ConfigError>>)
    requires built != []
    ensures AllOk(built) <==> built[0].Ok? && AllOk(built[1..])
  {
    if built[0].Ok? && AllOk(built[1..]) {
      forall i | 0 < i < |built|
        ensures built[i].Ok?
      {
        assert built[i] == built[1..][i - 1];
      }
    }
  }

  lemma AgreesWithAllCons(acc: GlobMap, built: seq<Result<GlobMap, ConfigError>>)
    requires built != [] && AllOk(built)
    ensures AllOk(built[1..])
    ensures AgreesWithAll(acc, built) <==> Agree(acc, built[0].value) && AgreesWithAll(acc, built[1..])
  {
    var rest := built[1..];
    assert forall i :: 0 <= i < |rest| ==> rest[i] == built[i + 1];
    if Agree(acc, built[0].value) && AgreesWithAll(acc, rest) {
      forall i | 0 < i < |built|
        ensures Agree(acc, built[i].value)
      {
        assert built[i] == rest[i - 1];
      }
    }
  }

  lemma PairwiseCons(built: seq<Result<GlobMap, ConfigError>>)
    requires built != [] && AllOk(built)
    ensures AllOk(built[1..])
    ensures PairwiseAgree(built) <==> AgreesWithAll(built[0].value, built[1..]) && PairwiseAgree(built[1..])
  {
    var rest := built[1..];
    assert forall i :: 0 <= i < |rest| ==> rest[i] == built[i + 1];
    if AgreesWithAll(built[0].value, rest) && PairwiseAgree(rest) {
      forall i, j | 0 <= i < |built| && 0 <= j < |built|
        ensures Agree(built[i].value, built[j].value)
      {
        if i > 0 && j > 0 {
          assert Agree(rest[i - 1].value, rest[j - 1].value);
        } else if i > 0 {
          assert Agree(built[0].value, rest[i - 1].value);
        } else if j > 0 {
          assert Agree(built[0].value, rest[j - 1].value);
        }
      }
    }
  }

  lemma KeepsAllCons(built: seq<Result<GlobMap, ConfigError>>, m: GlobMap)
    requires built != [] && AllOk(built)
    ensures AllOk(built[1..])
    ensures KeepsAll(built, m) <==>
      (forall k :: k in built[0].value ==> k in m && m[k] == built[0].value[k]) && KeepsAll(built[1..], m)
  {
    var rest := built[1..];
    assert forall i :: 0 <= i < |rest| ==> rest[i] == built[i + 1];
    if (forall k :: k in built[0].value ==> k in m && m[k] == built[0].value[k]) && KeepsAll(rest, m) {
      forall i, k | 0 < i < |built| && k in built[i].value
        ensures k in m && m[k] == built[i].value[k]
      {
        assert built[i] == rest[i - 1];
      }
    }
  }

  lemma FromSomeCons(built: seq<Result<GlobMap, ConfigError>>, glob: string)
    requires built != [] && AllOk(built)
    ensures AllOk(built[1..])
    ensures FromSome(built, glob) <==> glob in built[0].value || FromSome(built[1..], glob)
  {
    var rest := built[1..];
    assert forall i :: 0 <= i < |rest| ==> rest[i] == built[i + 1];
    if FromSome(built, glob) && glob !in built[0].value {
      var i :| 0 <= i < |built| && glob in built[i].value;
      assert glob in rest[i - 1].value;
    }
    if FromSome(rest, glob) {
      var i :| 0 <= i < |rest| && glob in rest[i].value;
      assert glob in built[i + 1].value;
    }
  }

  lemma AgreesWithAllUnion(acc: GlobMap, next: GlobMap, built: seq<Result<GlobMap, ConfigError>>)
    requires Agree(acc, next) && AllOk(built)
    ensures AgreesWithAll(next + acc, built) <==> AgreesWithAll(acc, built) && AgreesWithAll(next, built)
  {
    forall i | 0 <= i < |built|
      ensures Agree(next + acc, built[i].value) <==> Agree(acc, built[i].value) && Agree(next, built[i].value)
    {
      AgreeUnion(acc, next, built[i].value);
    }
  }

  /** Absorbing `next` into `acc` keeps agreement with a third table exactly
      when both did. */
  lemma AgreeUnion(acc: GlobMap, next: GlobMap, other: GlobMap)
    requires Agree(acc, next)
    ensures Agree(next + acc, other) <==> Agree(acc, other) && Agree(next, other)
  {
    if Agree(next + acc, other) {
      forall k | k in next && k in other
        ensures next[k] == other[k]
      {
        if k in acc {
          assert (next + acc)[k] == acc[k];
        }
      }
    }
  }

  /** The files `load_config` builds when no inline pair is given: those on
      the command line, or else the one found in the current directory. */
  function ConfigFiles(paths: seq<string>, src: Sources): (r: seq<string>)
    requires paths != [] || src.defaultConfig.Some?
    ensures r != []
    ensures paths != [] ==> r == paths
  {
    if paths == [] then [src.defaultConfig.value] else paths
  }

  /** Both an inline holder and an inline license were given. */
  predicate IsInline(holder: Option<string>, license: Option<string>) {
    holder.Some? && license.Some?
  }

  /** `load_config`: an inline pair for the listed globs, refused when a
      config file sits in the current directory; otherwise the config files
      built one by one and merged, the first listed (or found) file first. */
  function LoadConfig(holder: Option<string>, license: Option<string>, paths: seq<string>, src: Sources): (r: Result<GlobMap, ConfigError>)
    ensures IsInline(holder, license) ==> (r.Ok? <==> src.defaultConfig.None?)
    ensures IsInline(holder, license) && src.defaultConfig.Some? ==>
      r == Err(InlineWithDefaultConfig(src.defaultConfig.value))
    ensures IsInline(holder, license) && r.Ok? ==>
      r.value.Keys == (set g | g in paths) &&
      forall g :: g in r.value ==> r.value[g] == Claim(holder.value, license.value)
    ensures !IsInline(holder, license) && paths == [] && src.defaultConfig.None? ==> r == Err(NoConfigFound)
  {
    if IsInline(holder, license) then
      if src.defaultConfig.Some? then Err(InlineWithDefaultConfig(src.defaultConfig.value))
      else Ok(Inline(holder.value, license.value, paths))
    else if paths == [] && src.defaultConfig.None? then Err(NoConfigFound)
    else
      var built := BuildAll(src, ConfigFiles(paths, src));
      match built[0]
      case Err(e) => Err(e)
      case Ok(first) => AbsorbAll(first, built[1..])
  }

  /** `r`, the outcome of merging the built tables, is a success exactly
      when all built and every two of them agree; and then it binds each
      glob of each table as that table does, and nothing else. */
  predicate MergesAll(built: seq<Result<GlobMap, ConfigError>>, r: Result<GlobMap, ConfigError>) {
    && (r.Ok? <==> AllOk(built) && PairwiseAgree(built))
    && (r.Ok? ==> KeepsAll(built, r.value))
    && (r.Ok? ==> forall k :: k in r.value ==> FromSome(built, k))
  }

  /** From config files, `load_config` succeeds exactly when every file
      builds and every two of them agree; the result binds each glob of
      each file as that file does, and nothing else. */
  lemma LoadConfigMerges(holder: Option<string>, license: Option<string>, paths: seq<string>, src: Sources)
    requires !IsInline(holder, license)
    requires paths != [] || src.defaultConfig.Some?
    ensures MergesAll(BuildAll(src, ConfigFiles(paths, src)), LoadConfig(holder, license, paths, src))
  {
    var built := BuildAll(src, ConfigFiles(paths, src));
    if built[0].Ok? {
      AbsorbAllSpec(built[0].value, built[1..]);
      FirstThenRest(built, LoadConfig(holder, license, paths, src));
    }
  }

  lemma FirstThenRest(built: seq<Result<GlobMap, ConfigError>>, r: Result<GlobMap, ConfigError>)
    requires built != [] && built[0].Ok?
    requires AbsorbsAll(built[0].value, built[1..], r)
    ensures MergesAll(built, r)
  {
    AllOkCons(built);
    if AllOk(built) {
      PairwiseCons(built);
    }
    if r.Ok? {
      KeepsAllCons(built, r.value);
      forall k | k in r.value
        ensures FromSome(built, k)
      {
        FromSomeCons(built, k);
      }
    }
  }
}
