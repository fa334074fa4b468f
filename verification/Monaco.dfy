/** Turning an array of texts into keyed texts, with numbered keys for texts that occur again. */
module Monaco {
  import opened Numerals

  const DUPLICATE := "_duplicate/"

  /** The last index below i that holds the value, or i when there is none. */
  function LastBefore(original: seq<string>, i: nat, v: string): (k: nat)
    requires i <= |original|
    ensures k <= i && (k < i ==> original[k] == v) && forall j | 0 <= j < i && (k == i || k < j) :: original[j] != v
    decreases i
  {
    if i == 0 then 0
    else if original[i - 1] == v then i - 1
    else
      var k := LastBefore(original, i - 1, v);
      if k == i - 1 then i else k
  }

  /** How many different texts there are among the first i. */
  function Different(original: seq<string>, i: nat): nat
    requires i <= |original|
  {
    if i == 0 then 0
    else Different(original, i - 1) + if LastBefore(original, i - 1, original[i - 1]) == i - 1 then 1 else 0
  }

  predicate IsFirst(original: seq<string>, i: nat)
    requires i < |original|
  {
    LastBefore(original, i, original[i]) == i
  }

  /** The key of position i: the next translation key, or for a repeated text the number of its last
      position; reading past the last translation key gives "undefined". */
  function KeyOf(original: seq<string>, keys: seq<string>, i: nat): string
    requires i < |original|
  {
    if IsFirst(original, i) then
      var n := Different(original, i);
      if n < |keys| then keys[n] else "undefined"
    else DUPLICATE + Decimal(LastBefore(original, i, original[i]))
  }

  /** The first i keys in the order in which they are written. */
  function KeysUpTo(original: seq<string>, keys: seq<string>, i: nat): (ks: seq<string>)
    requires i <= |original|
    ensures |ks| == i
  {
    if i == 0 then [] else KeysUpTo(original, keys, i - 1) + [KeyOf(original, keys, i - 1)]
  }

  function KeysOf(original: seq<string>, keys: seq<string>): seq<string> {
    KeysUpTo(original, keys, |original|)
  }

  lemma {:induction false} KeyAt(original: seq<string>, keys: seq<string>, i: nat, j: nat)
    requires j < i <= |original|
    ensures KeysUpTo(original, keys, i)[j] == KeyOf(original, keys, j)
  {
    hide KeyOf;
    if j < i - 1 {
      KeyAt(original, keys, i - 1, j);
    }
  }

  predicate AllDifferent(ks: seq<string>) {
    forall j, k | 0 <= j < |ks| && 0 <= k < |ks| && j != k :: ks[j] != ks[k]
  }

  // ---------- counting keys ----------

  function Elements(ks: seq<string>): set<string> {
    set x | x in ks
  }

  lemma {:induction false} CountElements(ks: seq<string>)
    ensures |Elements(ks)| <= |ks|
    ensures |Elements(ks)| == |ks| <==> AllDifferent(ks)
  {
    if ks != [] {
      var before, k := ks[..|ks| - 1], ks[|ks| - 1];
      CountElements(before);
      assert ks == before + [k];
      assert Elements(ks) == Elements(before) + {k};
      if k in before {
        assert Elements(before) + {k} == Elements(before);
        var j :| 0 <= j < |before| && before[j] == k;
        assert ks[j] == ks[|ks| - 1];
      } else {
        assert AllDifferent(before) ==> AllDifferent(ks);
        assert AllDifferent(ks) ==> AllDifferent(before);
      }
    }
  }

  // ---------- when keys collide ----------

  /** No translation key that is written for some text is the numbered key of a repeated one. */
  predicate Unnumbered(original: seq<string>, keys: seq<string>) {
    forall i, k | 0 <= i < |keys| && i < Different(original, |original|) && 0 <= k < |original| ::
      IsFirst(original, k) || keys[i] != DUPLICATE + Decimal(LastBefore(original, k, original[k]))
  }

  /** There is a key for every different text, or one text is left over and its key "undefined" is free; and
      the numbered keys are free. */
  predicate Enough(original: seq<string>, keys: seq<string>) {
    var n := Different(original, |original|);
    (n <= |keys| || (n == |keys| + 1 && "undefined" !in keys)) && Unnumbered(original, keys)
  }

  lemma {:induction false} DifferentGrows(original: seq<string>, i: nat, j: nat)
    requires i <= j <= |original|
    ensures Different(original, i) <= Different(original, j)
    decreases j
  {
    if i < j {
      DifferentGrows(original, i, j - 1);
    }
  }

  lemma FirstCounts(original: seq<string>, i: nat)
    requires i < |original| && IsFirst(original, i)
    ensures Different(original, i) + 1 == Different(original, i + 1) <= Different(original, |original|)
  {
    DifferentGrows(original, i + 1, |original|);
  }

  lemma {:induction false} NthFirst(original: seq<string>, n: nat, i: nat) returns (k: nat)
    requires i <= |original| && n < Different(original, i)
    ensures k < i && IsFirst(original, k) && Different(original, k) == n
    decreases i
  {
    if n < Different(original, i - 1) {
      k := NthFirst(original, n, i - 1);
    } else {
      k := i - 1;
    }
  }

  lemma TwoOf(ks: seq<string>, i: nat, j: nat)
    requires AllDifferent(ks) && i < j < |ks|
    ensures ks[i] != ks[j]
  {
  }

  lemma FirstsDiffer(original: seq<string>, keys: seq<string>, j: nat, k: nat)
    requires j < k < |original| && AllDifferent(keys) && Enough(original, keys)
    requires IsFirst(original, j) && IsFirst(original, k)
    ensures KeyOf(original, keys, j) != KeyOf(original, keys, k)
  {
    hide Different, AllDifferent, Unnumbered, LastBefore;
    FirstCounts(original, j);
    FirstCounts(original, k);
    DifferentGrows(original, j + 1, k);
    if Different(original, k) < |keys| {
      TwoOf(keys, Different(original, j), Different(original, k));
    }
  }

  lemma RepeatsDiffer(original: seq<string>, keys: seq<string>, j: nat, k: nat)
    requires j < k < |original| && !IsFirst(original, j) && !IsFirst(original, k)
    ensures KeyOf(original, keys, j) != KeyOf(original, keys, k)
  {
    var a, b := LastBefore(original, j, original[j]), LastBefore(original, k, original[k]);
    assert a != b;
    if DUPLICATE + Decimal(a) == DUPLICATE + Decimal(b) {
      PrefixedInjective(DUPLICATE, a, b);
    }
  }

  lemma FirstAndRepeatDiffer(original: seq<string>, keys: seq<string>, j: nat, k: nat)
    requires j < |original| && k < |original| && Enough(original, keys) && IsFirst(original, j) && !IsFirst(original, k)
    ensures KeyOf(original, keys, j) != KeyOf(original, keys, k)
  {
    var key := KeyOf(original, keys, k);
    assert DUPLICATE <= key;
    assert key[0] == DUPLICATE[0] != "undefined"[0];
    FirstCounts(original, j);
  }

  lemma TwoDiffer(original: seq<string>, keys: seq<string>, j: nat, k: nat)
    requires j < k < |original| && AllDifferent(keys) && Enough(original, keys)
    ensures KeyOf(original, keys, j) != KeyOf(original, keys, k)
  {
    if IsFirst(original, j) && IsFirst(original, k) {
      FirstsDiffer(original, keys, j, k);
    } else if IsFirst(original, j) {
      FirstAndRepeatDiffer(original, keys, j, k);
    } else if IsFirst(original, k) {
      FirstAndRepeatDiffer(original, keys, k, j);
    } else {
      RepeatsDiffer(original, keys, j, k);
    }
  }

  function UndefinedAt(keys: seq<string>): (i: nat)
    requires "undefined" in keys
    ensures i < |keys| && keys[i] == "undefined"
  {
    if keys[0] == "undefined" then 0 else 1 + UndefinedAt(keys[1..])
  }

  /** No two positions write the same key iff there are enough keys. */
  lemma CollisionExact(original: seq<string>, keys: seq<string>)
    requires AllDifferent(keys)
    ensures AllDifferent(KeysOf(original, keys)) <==> Enough(original, keys)
  {
    hide AllDifferent, Enough, KeyOf;
    if Enough(original, keys) {
      KeysDiffer(original, keys);
    } else {
      var j, k := Colliding(original, keys);
      SameKey(original, keys, j, k);
    }
  }

  lemma KeysDiffer(original: seq<string>, keys: seq<string>)
    requires AllDifferent(keys) && Enough(original, keys)
    ensures AllDifferent(KeysOf(original, keys))
  {
    hide Enough, KeyOf;
    var ks := KeysOf(original, keys);
    forall j, k | 0 <= j < |ks| && 0 <= k < |ks| && j != k ensures ks[j] != ks[k] {
      KeyAt(original, keys, |ks|, j);
      KeyAt(original, keys, |ks|, k);
      TwoDiffer(original, keys, if j < k then j else k, if j < k then k else j);
    }
  }

  lemma SameKey(original: seq<string>, keys: seq<string>, j: nat, k: nat)
    requires j < |original| && k < |original| && j != k && KeyOf(original, keys, j) == KeyOf(original, keys, k)
    ensures !AllDifferent(KeysOf(original, keys))
  {
    hide KeyOf;
    var ks := KeysOf(original, keys);
    KeyAt(original, keys, |ks|, j);
    KeyAt(original, keys, |ks|, k);
    assert ks[j] == ks[k];
  }

  /** Two positions that write the same key, when there are not enough of them. */
  lemma Colliding(original: seq<string>, keys: seq<string>) returns (j: nat, k: nat)
    requires !Enough(original, keys)
    ensures j < |original| && k < |original| && j != k && KeyOf(original, keys, j) == KeyOf(original, keys, k)
  {
    var n := Different(original, |original|);
    if !Unnumbered(original, keys) {
      var i: nat, r: nat :| i < |keys| && i < n && r < |original| && !IsFirst(original, r) &&
                            keys[i] == DUPLICATE + Decimal(LastBefore(original, r, original[r]));
      k := r;
      j := NthFirst(original, i, |original|);
    } else {
      j := NthFirst(original, |keys|, |original|);
      k := NthFirst(original, if n == |keys| + 1 then UndefinedAt(keys) else |keys| + 1, |original|);
    }
  }

  lemma TwoTexts()
    ensures var original := ["x", "y"];
            && IsFirst(original, 0) && IsFirst(original, 1)
            && Different(original, 0) == 0 && Different(original, 1) == 1 && Different(original, 2) == 2
  {
    var original := ["x", "y"];
    assert LastBefore(original, 0, "x") == 0 && LastBefore(original, 1, "y") == 1;
  }

  lemma OneMissing()
    ensures KeysOf(["x", "y"], ["k"]) == ["k", "undefined"]
  {
    var original := ["x", "y"];
    TwoTexts();
    hide Different, LastBefore;
    assert KeyOf(original, ["k"], 0) == "k" && KeyOf(original, ["k"], 1) == "undefined";
    hide KeyOf;
    assert KeysUpTo(original, ["k"], 1) == [] + ["k"];
    assert KeysUpTo(original, ["k"], 2) == ["k"] + ["undefined"];
  }

  lemma TooFew(keys: seq<string>)
    requires keys == [] || keys == ["undefined"]
    ensures !AllDifferent(KeysOf(["x", "y"], keys))
  {
    TwoTexts();
    assert AllDifferent(keys);
    hide Different, KeysOf, AllDifferent, Unnumbered;
    CollisionExact(["x", "y"], keys);
  }

  /** One text without a key is not noticed, since its key is written as "undefined"; two are. */
  lemma MissingKeys()
    ensures AllDifferent(KeysOf(["x", "y"], ["k"])) && KeysOf(["x", "y"], ["k"]) == ["k", "undefined"]
    ensures !AllDifferent(KeysOf(["x", "y"], [])) && !AllDifferent(KeysOf(["x", "y"], ["undefined"]))
  {
    hide KeysOf;
    OneMissing();
    TooFew([]);
    TooFew(["undefined"]);
  }

  /** The map remembers the last position of every text among the first i. */
  ghost predicate Remembers(original: seq<string>, i: nat, m: map<string, nat>)
    requires i <= |original|
  {
    && (forall v :: v in m <==> LastBefore(original, i, v) < i)
    && (forall v | v in m :: m[v] == LastBefore(original, i, v))
  }

  lemma RemembersNext(original: seq<string>, i: nat, m: map<string, nat>)
    requires i < |original| && Remembers(original, i, m)
    ensures Remembers(original, i + 1, m[original[i] := i])
  {
  }

  /** What the loop body does, in terms of the remembered positions. */
  lemma NextKey(original: seq<string>, keys: seq<string>, i: nat, m: map<string, nat>)
    requires i < |original| && Remembers(original, i, m)
    ensures original[i] in m ==> KeyOf(original, keys, i) == DUPLICATE + Decimal(m[original[i]])
    ensures original[i] in m ==> Different(original, i + 1) == Different(original, i)
    ensures original[i] !in m ==>
              var n := Different(original, i);
              && KeyOf(original, keys, i) == (if n < |keys| then keys[n] else "undefined")
              && Different(original, i + 1) == n + 1
  {
  }

  /** Every key so far is there, and if they are all different each still has its text. */
  ghost predicate Holds(output: map<string, string>, ks: seq<string>, original: seq<string>)
    requires |ks| <= |original|
  {
    && output.Keys == Elements(ks)
    && (AllDifferent(ks) ==> forall j | 0 <= j < |ks| :: output[ks[j]] == original[j])
  }

  lemma HoldsNext(output: map<string, string>, ks: seq<string>, original: seq<string>, k: string)
    requires |ks| < |original| && Holds(output, ks, original)
    ensures Holds(output[k := original[|ks|]], ks + [k], original)
  {
    var more, all := output[k := original[|ks|]], ks + [k];
    assert Elements(all) == Elements(ks) + {k};
    if AllDifferent(all) {
      forall i, j | 0 <= i < |ks| && 0 <= j < |ks| && i != j ensures ks[i] != ks[j] { assert all[i] != all[j]; }
      forall j | 0 <= j < |all| ensures more[all[j]] == original[j] {
        if j < |ks| { assert all[j] != all[|ks|]; }
      }
    }
  }

  lemma KeyWritten(output: map<string, string>, original: seq<string>, keys: seq<string>, i: nat)
    requires i < |original| && Holds(output, KeysUpTo(original, keys, i), original)
    ensures Holds(output[KeyOf(original, keys, i) := original[i]], KeysUpTo(original, keys, i + 1), original)
  {
    hide Holds;
    HoldsNext(output, KeysUpTo(original, keys, i), original, KeyOf(original, keys, i));
  }

  /** The loop over the texts of one entry, and the check of the number of keys written. */
  method Translate(original: seq<string>, translationKeys: seq<string>)
    returns (output: map<string, string>, complete: bool)
    ensures Holds(output, KeysOf(original, translationKeys), original)
    ensures complete <==> AllDifferent(KeysOf(original, translationKeys))
    ensures AllDifferent(translationKeys) ==> (complete <==> Enough(original, translationKeys))
  {
    output := map[];
    var translationIndex := 0;
    var duplicateMap: map<string, nat> := map[];
    for i := 0 to |original|
      invariant translationIndex == Different(original, i)
      invariant Remembers(original, i, duplicateMap)
      invariant Holds(output, KeysUpTo(original, translationKeys, i), original)
    {
      var originalValue := original[i];
      KeyWritten(output, original, translationKeys, i);
      NextKey(original, translationKeys, i, duplicateMap);
      RemembersNext(original, i, duplicateMap);
      hide Remembers, Holds, KeysUpTo, KeyOf, Different, LastBefore, AllDifferent, Enough, Decimal;
      if originalValue in duplicateMap {
        var index := duplicateMap[originalValue];
        output := output[DUPLICATE + Decimal(index) := originalValue];
      } else {
        var key := if translationIndex < |translationKeys| then translationKeys[translationIndex] else "undefined";
        output := output[key := originalValue];
        translationIndex := translationIndex + 1;
      }
      duplicateMap := duplicateMap[originalValue := i];
    }
    hide KeysUpTo, Different, Enough;
    CountElements(KeysOf(original, translationKeys));
    if AllDifferent(translationKeys) {
      CollisionExact(original, translationKeys);
    }
    complete := |output| == |original|;
  }
}
