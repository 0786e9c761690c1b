/** The renaming of chat display names to short names (risiko3.py lines 85-90): for each
    pair of `user_mapping`, in its order, every occurrence of the key in the `User` column
    is replaced by the value, as a plain substring replacement. */
module Aliases {
  import opened Text
  import opened Config

  /** `user_mapping`, in the order the dict literal lists its pairs. */
  const UserMapping: seq<(string, string)> := [
    ("cosimobicci", "Cosimo"),
    ("riki nata", "Riccardo"),
    ("Federation non \U{E8} rotto qualcosa Yonghong", "Armando"),
    ("Maurizio dalla sezione Marketing", "Tommaso"),
    ("Asia Mariani", "Asia"),
    ("Stefano Panichi", "Stefano"),
    ("Leo Chelsea", "Leo"),
    ("Luca Viezzoli", "Luca"),
    ("mariam", "Mariam"),
    ("Francesca Piersigilli", "Francesca")
  ]

  /** `u` after `.replace(k, v)` for each pair `(k, v)` of `pairs` in turn. A name in which
      no key occurs comes through unchanged. */
  function ApplyAliases(u: string, pairs: seq<(string, string)>): (r: string)
    ensures (forall k :: 0 <= k < |pairs| ==> pairs[k].0 != [] && !Contains(u, pairs[k].0)) ==> r == u
  {
    if pairs == [] then u
    else
      var last := pairs[|pairs| - 1];
      ReplaceAll(ApplyAliases(u, pairs[..|pairs| - 1]), last.0, last.1)
  }

  /** Line 90: `df['User'] = df['User'].str.replace(k, v, regex=False)` for each pair, the
      whole column rewritten once per pair. */
  method AliasUsers(users: seq<string>) returns (column: seq<string>)
    ensures |column| == |users|
    ensures forall i :: 0 <= i < |users| ==> column[i] == ApplyAliases(users[i], UserMapping)
  {
    column := users;
    for j := 0 to |UserMapping|
      invariant |column| == |users|
      invariant forall i :: 0 <= i < |users| ==> column[i] == ApplyAliases(users[i], UserMapping[..j])
    {
      var (key, value) := UserMapping[j];
      assert UserMapping[..j + 1][..j] == UserMapping[..j];
      column := seq(|column|, i requires 0 <= i < |column| => ReplaceAll(column[i], key, value));
    }
    assert UserMapping[..|UserMapping|] == UserMapping;
  }

  /** Pair `j` renames its key cleanly: the key is not empty, no earlier key occurs in it,
      and no later key occurs in its short name. */
  ghost predicate RenamesCleanly(pairs: seq<(string, string)>, j: nat) {
    && j < |pairs| && pairs[j].0 != []
    && (forall k :: 0 <= k < j ==> pairs[k].0 != [] && !Contains(pairs[j].0, pairs[k].0))
    && (forall k :: j < k < |pairs| ==> pairs[k].0 != [] && !Contains(pairs[j].1, pairs[k].0))
  }

  /** After a pair that renames its key cleanly, the key stays renamed. */
  lemma {:induction false} RenamedStays(pairs: seq<(string, string)>, j: nat, n: nat)
    requires RenamesCleanly(pairs, j) && j < n <= |pairs|
    ensures ApplyAliases(pairs[j].0, pairs[..n]) == pairs[j].1
  {
    var ps := pairs[..n];
    assert ps[..n - 1] == pairs[..n - 1];
    if n == j + 1 {
      assert forall k :: 0 <= k < j ==> ps[..n - 1][k] == pairs[k];
      assert ApplyAliases(pairs[j].0, pairs[..j]) == pairs[j].0;
      ReplaceWhole(pairs[j].0, pairs[j].1);
    } else {
      RenamedStays(pairs, j, n - 1);
      assert ps[n - 1] == pairs[n - 1];
    }
  }

  /** A key that pair `j` renames cleanly comes out of the whole mapping as its short name. */
  lemma KeyBecomesValue(pairs: seq<(string, string)>, j: nat)
    requires RenamesCleanly(pairs, j)
    ensures ApplyAliases(pairs[j].0, pairs) == pairs[j].1
  {
    RenamedStays(pairs, j, |pairs|);
    assert pairs[..|pairs|] == pairs;
  }

  /** The first pair of the table renames its key cleanly, so "cosimobicci" comes out of
      the whole mapping as "Cosimo". */
  lemma FirstKeyRenamed()
    ensures ApplyAliases("cosimobicci", UserMapping) == "Cosimo"
  {
    var v := UserMapping[0].1;
    forall k | 0 < k < |UserMapping|
      ensures UserMapping[k].0 != [] && !Contains(v, UserMapping[k].0)
    {
      if k == 8 {
        SameLengthContained(v, UserMapping[k].0);
      } else {
        LongerNotContained(v, UserMapping[k].0);
      }
    }
    KeyBecomesValue(UserMapping, 0);
  }

  /** Every short name the mapping produces is a configured user, so it has a colour. */
  lemma ShortNamesAreConfigured()
    ensures forall j :: 0 <= j < |UserMapping| ==> UserMapping[j].1 in UserConfig
  {
  }
}
