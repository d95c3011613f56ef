/**
 * A table's schema is its list of column names.  The column operations of the
 * feature stage are edits of that list: dropping a name, renaming a name in
 * place, adding a name at the end.
 */
module Schema {

  predicate Distinct(s: seq<string>) {
    forall i, j :: 0 <= i < j < |s| ==> s[i] != s[j]
  }

  /** `x` stands somewhere before `y` in `s`. */
  predicate Before(s: seq<string>, x: string, y: string) {
    exists i, j :: 0 <= i < j < |s| && s[i] == x && s[j] == y
  }

  /** The names of `cols` that are not in `removed`, in their original order. */
  function Keep(cols: seq<string>, removed: set<string>): (r: seq<string>)
    ensures forall c :: c in r <==> c in cols && c !in removed
    ensures |r| <= |cols|
  {
    if cols == [] then []
    else (if cols[0] in removed then [] else [cols[0]]) + Keep(cols[1..], removed)
  }

  /** `df.drop(columns=[name])` on the schema. */
  function Drop(cols: seq<string>, name: string): seq<string> {
    Keep(cols, {name})
  }

  /** `df[name] = ...`: an existing name keeps its place, a new one goes last. */
  function Appended(cols: seq<string>, name: string): seq<string> {
    if name in cols then cols else cols + [name]
  }

  lemma AppendedMembers(cols: seq<string>, name: string)
    ensures forall x :: x in Appended(cols, name) <==> x in cols || x == name
  {
  }

  /** Dropping names that are not there changes nothing. */
  lemma {:induction false} KeepAbsent(cols: seq<string>, removed: set<string>)
    requires forall c :: c in cols ==> c !in removed
    ensures Keep(cols, removed) == cols
  {
    if cols != [] {
      assert cols[0] in cols;
      assert forall c :: c in cols[1..] ==> c in cols;
      KeepAbsent(cols[1..], removed);
      assert cols == [cols[0]] + cols[1..];
    }
  }

  /** Two drops in a row are one drop of both sets of names. */
  lemma {:induction false} KeepKeep(cols: seq<string>, a: set<string>, b: set<string>)
    ensures Keep(Keep(cols, a), b) == Keep(cols, a + b)
  {
    if cols != [] {
      KeepKeep(cols[1..], a, b);
      KeepAppend(if cols[0] in a then [] else [cols[0]], Keep(cols[1..], a), b);
      if cols[0] !in a {
        assert Keep([cols[0]], b) == if cols[0] in b then [] else [cols[0]] by {
          assert [cols[0]][1..] == [];
        }
      }
    }
  }

  lemma {:induction false} KeepAppend(s: seq<string>, t: seq<string>, removed: set<string>)
    ensures Keep(s + t, removed) == Keep(s, removed) + Keep(t, removed)
  {
    if s != [] {
      assert (s + t)[1..] == s[1..] + t;
      KeepAppend(s[1..], t, removed);
    } else {
      assert s + t == t;
    }
  }

  lemma {:induction false} KeepDistinct(cols: seq<string>, removed: set<string>)
    requires Distinct(cols)
    ensures Distinct(Keep(cols, removed))
  {
    if cols != [] {
      KeepDistinct(cols[1..], removed);
      assert cols[0] !in cols[1..] by {
        forall k | 0 <= k < |cols| - 1 ensures cols[1..][k] != cols[0] {
          assert cols[1..][k] == cols[k + 1];
        }
      }
    }
  }

  /** Dropping names keeps every other name in its relative order. */
  lemma {:induction false} KeepPreservesOrder(cols: seq<string>, removed: set<string>, x: string, y: string)
    requires Before(cols, x, y)
    requires x !in removed && y !in removed
    ensures Before(Keep(cols, removed), x, y)
  {
    var i, j :| 0 <= i < j < |cols| && cols[i] == x && cols[j] == y;
    var rest := cols[1..];
    var tail := Keep(rest, removed);
    var head := if cols[0] in removed then [] else [cols[0]];
    assert Keep(cols, removed) == head + tail;
    assert rest[j - 1] == y;
    if i == 0 {
      assert y in tail;
      var j' :| 0 <= j' < |tail| && tail[j'] == y;
      assert (head + tail)[0] == x && (head + tail)[j' + 1] == y;
    } else {
      assert rest[i - 1] == x;
      KeepPreservesOrder(rest, removed, x, y);
      var i', j' :| 0 <= i' < j' < |tail| && tail[i'] == x && tail[j'] == y;
      assert (head + tail)[i' + |head|] == x && (head + tail)[j' + |head|] == y;
    }
  }

  /** `for col in names: df.drop(columns=[col])`, one name after the other. */
  function DropAll(cols: seq<string>, names: seq<string>): seq<string> {
    if names == [] then cols
    else Drop(DropAll(cols, names[..|names| - 1]), names[|names| - 1])
  }

  /** Dropping a list of names one by one is one drop of all of them. */
  lemma {:induction false} DropAllIsKeep(cols: seq<string>, names: seq<string>)
    ensures DropAll(cols, names) == Keep(cols, set n | n in names)
  {
    if names == [] {
      assert (set n | n in names) == {};
      KeepAbsent(cols, {});
    } else {
      var init := names[..|names| - 1];
      DropAllIsKeep(cols, init);
      var last := names[|names| - 1];
      KeepKeep(cols, set n | n in init, {last});
      NamesSnoc(init, last);
      assert names == init + [last];
    }
  }

  lemma NamesSnoc(init: seq<string>, last: string)
    ensures (set n | n in init) + {last} == set n | n in init + [last]
  {
    var a := (set n | n in init) + {last};
    var b := set n | n in init + [last];
    forall n ensures n in a <==> n in b {
      assert n in init + [last] <==> n in init || n == last;
    }
  }

  /** `df.rename(columns={source: target})` on the schema: every `source` becomes `target` in place. */
  function Renamed(cols: seq<string>, source: string, target: string): (r: seq<string>)
    ensures |r| == |cols|
    ensures forall i :: 0 <= i < |cols| ==> r[i] == if cols[i] == source then target else cols[i]
  {
    if cols == [] then []
    else [if cols[0] == source then target else cols[0]] + Renamed(cols[1..], source, target)
  }

  /** After renaming a present name, the names are the others and the target. */
  lemma RenamedMembers(cols: seq<string>, source: string, target: string)
    requires source in cols
    ensures forall c :: c in Renamed(cols, source, target) <==> (c in cols && c != source) || c == target
  {
    var r := Renamed(cols, source, target);
    forall c | c in r ensures (c in cols && c != source) || c == target {
      var i :| 0 <= i < |r| && r[i] == c;
      if cols[i] != source {
        assert cols[i] == c;
      }
    }
    var i :| 0 <= i < |cols| && cols[i] == source;
    assert r[i] == target;
    forall c | c in cols && c != source ensures c in r {
      var j :| 0 <= j < |cols| && cols[j] == c;
      assert r[j] == c;
    }
  }

  /** Renaming a name that is not there changes nothing. */
  lemma RenamedAbsent(cols: seq<string>, source: string, target: string)
    requires source !in cols
    ensures Renamed(cols, source, target) == cols
  {
    assert forall i :: 0 <= i < |cols| ==> cols[i] != source;
  }

  /** Renaming into a name that is not yet taken keeps the names distinct. */
  lemma RenamedDistinct(cols: seq<string>, source: string, target: string)
    requires Distinct(cols)
    requires source in cols ==> target !in cols
    ensures Distinct(Renamed(cols, source, target))
  {
    var r := Renamed(cols, source, target);
    forall i, j | 0 <= i < j < |r| ensures r[i] != r[j] {
      assert cols[i] in cols && cols[j] in cols;
    }
  }

  /** Where a single name ends up under a sequence of renamings applied in order. */
  function RenameName(c: string, pairs: seq<(string, string)>): string {
    if pairs == [] then c
    else
      var prior := RenameName(c, pairs[..|pairs| - 1]);
      var (source, target) := pairs[|pairs| - 1];
      if prior == source then target else prior
  }

  /** `for source, target in pairs: df.rename(columns={source: target})`, one pair after the other. */
  function RenameAll(cols: seq<string>, pairs: seq<(string, string)>): seq<string> {
    if pairs == [] then cols
    else
      var (source, target) := pairs[|pairs| - 1];
      Renamed(RenameAll(cols, pairs[..|pairs| - 1]), source, target)
  }

  /** Renaming acts name by name: every column keeps its position. */
  lemma {:induction false} RenameAllPointwise(cols: seq<string>, pairs: seq<(string, string)>)
    ensures |RenameAll(cols, pairs)| == |cols|
    ensures forall i :: 0 <= i < |cols| ==> RenameAll(cols, pairs)[i] == RenameName(cols[i], pairs)
  {
    if pairs != [] {
      RenameAllPointwise(cols, pairs[..|pairs| - 1]);
    }
  }

  /**
   * No renaming in `pairs` targets a name that is already present when its source
   * is there too (pandas would then produce two columns with the same label).
   */
  predicate RenamesFresh(cols: seq<string>, pairs: seq<(string, string)>) {
    pairs == [] ||
    (var prior := RenameAll(cols, pairs[..|pairs| - 1]);
     var (source, target) := pairs[|pairs| - 1];
     RenamesFresh(cols, pairs[..|pairs| - 1]) && (source in prior ==> target !in prior))
  }

  lemma {:induction false} RenameAllDistinct(cols: seq<string>, pairs: seq<(string, string)>)
    requires Distinct(cols)
    requires RenamesFresh(cols, pairs)
    ensures Distinct(RenameAll(cols, pairs))
  {
    if pairs != [] {
      RenameAllDistinct(cols, pairs[..|pairs| - 1]);
      var (source, target) := pairs[|pairs| - 1];
      RenamedDistinct(RenameAll(cols, pairs[..|pairs| - 1]), source, target);
    }
  }

  /** Adding a name at the end keeps the order of the others. */
  lemma BeforeAppended(cols: seq<string>, name: string, x: string, y: string)
    requires Before(cols, x, y)
    ensures Before(Appended(cols, name), x, y)
  {
    var i, j :| 0 <= i < j < |cols| && cols[i] == x && cols[j] == y;
    assert Appended(cols, name)[i] == x && Appended(cols, name)[j] == y;
  }

  /** Names appended after `s` keep the order of the names in `s`. */
  lemma BeforeConcat(s: seq<string>, t: seq<string>, x: string, y: string)
    requires Before(s, x, y)
    ensures Before(s + t, x, y)
  {
    var i, j :| 0 <= i < j < |s| && s[i] == x && s[j] == y;
    assert (s + t)[i] == x && (s + t)[j] == y;
  }

  /** Renaming keeps every name in its place, so the order of the renamed names is the old one. */
  lemma BeforeRenameAll(cols: seq<string>, pairs: seq<(string, string)>, x: string, y: string)
    requires Before(cols, x, y)
    ensures Before(RenameAll(cols, pairs), RenameName(x, pairs), RenameName(y, pairs))
  {
    var i, j :| 0 <= i < j < |cols| && cols[i] == x && cols[j] == y;
    RenameAllPointwise(cols, pairs);
    var r := RenameAll(cols, pairs);
    assert r[i] == RenameName(x, pairs) && r[j] == RenameName(y, pairs);
  }

  /** Dropping names, renaming, then dropping one more name keeps the survivors in order. */
  lemma DropRenameDropOrder(cols: seq<string>, names: seq<string>, pairs: seq<(string, string)>, last: string, x: string, y: string)
    requires Before(cols, x, y)
    requires x !in names && y !in names
    requires RenameName(x, pairs) != last && RenameName(y, pairs) != last
    ensures Before(Drop(RenameAll(DropAll(cols, names), pairs), last), RenameName(x, pairs), RenameName(y, pairs))
  {
    DropAllIsKeep(cols, names);
    KeepPreservesOrder(cols, (set n | n in names), x, y);
    var dropped := DropAll(cols, names);
    BeforeRenameAll(dropped, pairs, x, y);
    KeepPreservesOrder(RenameAll(dropped, pairs), {last}, RenameName(x, pairs), RenameName(y, pairs));
  }

  /** The names after renaming are exactly the renamed old names. */
  lemma RenameAllMembers(cols: seq<string>, pairs: seq<(string, string)>)
    ensures forall n :: n in RenameAll(cols, pairs) <==> exists c :: c in cols && RenameName(c, pairs) == n
  {
    RenameAllPointwise(cols, pairs);
    var r := RenameAll(cols, pairs);
    forall n ensures n in r <==> exists c :: c in cols && RenameName(c, pairs) == n {
      if n in r {
        var i :| 0 <= i < |r| && r[i] == n;
        assert cols[i] in cols;
      }
      if exists c :: c in cols && RenameName(c, pairs) == n {
        var c :| c in cols && RenameName(c, pairs) == n;
        var i :| 0 <= i < |cols| && cols[i] == c;
        assert r[i] == n;
      }
    }
  }

  /** A name that is neither the source nor the target of a rename is there after it exactly when it was before. */
  lemma RenamedOther(cols: seq<string>, source: string, target: string, x: string)
    requires x != source && x != target
    ensures x in Renamed(cols, source, target) <==> x in cols
  {
    var r := Renamed(cols, source, target);
    if x in r {
      var i :| 0 <= i < |r| && r[i] == x;
      assert cols[i] == x;
    }
    if x in cols {
      var i :| 0 <= i < |cols| && cols[i] == x;
      assert r[i] == x;
    }
  }

  /** One more rename is fresh when the earlier ones were and its target is free wherever its source is present. */
  lemma RenamesFreshLast(cols: seq<string>, pairs: seq<(string, string)>)
    requires pairs != []
    ensures var init := pairs[..|pairs| - 1];
      var prior := RenameAll(cols, init);
      && RenameAll(cols, pairs) == Renamed(prior, pairs[|pairs| - 1].0, pairs[|pairs| - 1].1)
      && (RenamesFresh(cols, pairs) <==>
            RenamesFresh(cols, init) && (pairs[|pairs| - 1].0 in prior ==> pairs[|pairs| - 1].1 !in prior))
  {
  }
}
