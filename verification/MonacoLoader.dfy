/** Reading the written keys back: which translation each text gets. */
module MonacoLoader {
  import opened Wrappers
  import opened Numerals
  import opened Monaco

  // ---------- which key a text is written under ----------

  lemma AbsentBefore(original: seq<string>, v: string, n: nat)
    requires n <= |original| && v !in original[..n]
    ensures forall k | 0 <= k < n :: original[k] != v
  {
    forall k | 0 <= k < n ensures original[k] != v {
      assert original[..n][k] == original[k];
    }
  }

  /** The n-th different text is written under the n-th translation key. */
  lemma FirstKey(original: seq<string>, keys: seq<string>, i: nat)
    requires i < |original| && original[i] !in original[..i]
    ensures var n := |Elements(original[..i])|;
            KeysOf(original, keys)[i] == if n < |keys| then keys[n] else "undefined"
  {
    KeyAt(original, keys, |original|, i);
    DifferentCounts(original, i);
    AbsentBefore(original, original[i], i);
    assert IsFirst(original, i);
  }

  /** A repeated text is written under the number of the last position that had it. */
  lemma RepeatedKey(original: seq<string>, keys: seq<string>, j: nat, i: nat)
    requires j < i < |original| && original[j] == original[i] && original[i] !in original[j + 1..i]
    ensures KeysOf(original, keys)[i] == "_duplicate/" + Decimal(j)
  {
    KeyAt(original, keys, |original|, i);
    LastIs(original, j, i);
  }

  lemma LastIs(original: seq<string>, j: nat, i: nat)
    requires j < i < |original| && original[j] == original[i] && original[i] !in original[j + 1..i]
    ensures LastBefore(original, i, original[i]) == j
  {
    forall k | j < k < i ensures original[k] != original[i] {
      assert original[j + 1..i][k - j - 1] == original[k];
    }
  }

  lemma {:induction false} DifferentCounts(original: seq<string>, i: nat)
    requires i <= |original|
    ensures Different(original, i) == |Elements(original[..i])|
  {
    if i > 0 {
      var before, v := original[..i - 1], original[i - 1];
      DifferentCounts(original, i - 1);
      assert original[..i] == before + [v];
      assert Elements(original[..i]) == Elements(before) + {v};
      var k := LastBefore(original, i - 1, v);
      if k < i - 1 {
        assert before[k] == v;
        assert Elements(before) + {v} == Elements(before);
      } else {
        assert v !in before;
      }
    } else {
      assert original[..0] == [];
    }
  }

  // ---------- the loader ----------

  predicate Numbered(key: string) {
    DUPLICATE <= key
  }

  function Suffix(key: string): string
    requires Numbered(key)
  {
    key[|DUPLICATE|..]
  }

  /** What JavaScript reads a text as, when that is an index. */
  type Reading = string -> Option<nat>

  /** The key that position i stands for, once the positions before it are replaced by what they stand for. */
  function Resolved(keys: seq<string>, number: Reading, i: nat): string
    requires i < |keys|
  {
    if !Numbered(keys[i]) then keys[i]
    else if number(Suffix(keys[i])).None? || number(Suffix(keys[i])).value >= |keys| then "undefined"
    else
      var k := number(Suffix(keys[i])).value;
      if k < i then Resolved(keys, number, k) else keys[k]
  }

  function Item(items: map<string, string>, key: string): Option<string> {
    if key in items then Some(items[key]) else None
  }

  /** The message for each key: its name, and the text that is there without a translation. */
  method CreateMessages(name: string, keys: array<string>, items: map<string, string>, number: Reading)
    returns (messages: seq<(string, Option<string>)>)
    modifies keys
    ensures |messages| == keys.Length
    ensures forall i | 0 <= i < keys.Length ::
              && keys[i] == old(Resolved(keys[..], number, i))
              && messages[i] == ("vscode/" + name + "/" + keys[i], Item(items, keys[i]))
  {
    messages := [];
    ghost var ks := keys[..];
    for i := 0 to keys.Length
      invariant |messages| == i
      invariant forall j | 0 <= j < i :: keys[j] == Resolved(ks, number, j)
      invariant forall j | i <= j < keys.Length :: keys[j] == ks[j]
      invariant forall j | 0 <= j < i :: messages[j] == ("vscode/" + name + "/" + keys[j], Item(items, keys[j]))
    {
      var key := keys[i];
      if Numbered(key) {
        var index := number(Suffix(key));
        key := if index.Some? && index.value < keys.Length then keys[index.value] else "undefined";
        keys[i] := key;
      }
      messages := messages + [("vscode/" + name + "/" + key, Item(items, key))];
    }
  }

  // ---------- writing and reading ----------

  predicate IsFirstOf(original: seq<string>, f: nat, i: nat) {
    f <= i < |original| && original[f] == original[i] && original[i] !in original[..f]
  }

  /** Position i is read as the key under which its text was first written. */
  ghost predicate ReadsBack(original: seq<string>, keys: seq<string>, number: Reading, i: nat) {
    i < |original| && forall f: nat | IsFirstOf(original, f, i) ::
      Resolved(KeysOf(original, keys), number, i) == KeysOf(original, keys)[f]
  }

  /** A translation key that looks like a numbered one has the number of its own position. */
  predicate Harmless(original: seq<string>, keys: seq<string>, number: Reading, f: nat)
    requires f < |original|
  {
    var key := KeysOf(original, keys)[f];
    Numbered(key) ==> number(Suffix(key)) == Some(f)
  }

  ghost predicate ReadsNumerals(number: Reading) {
    forall n: nat :: number(Decimal(n)) == Some(n)
  }

  lemma FirstExists(original: seq<string>, i: nat) returns (f: nat)
    requires i < |original|
    ensures IsFirstOf(original, f, i)
  {
    f := 0;
    while original[f] != original[i]
      invariant f <= i && original[i] !in original[..f]
      decreases i - f
    {
      assert original[..f + 1] == original[..f] + [original[f]];
      f := f + 1;
    }
  }

  lemma FirstIsFirst(original: seq<string>, f: nat, i: nat)
    requires IsFirstOf(original, f, i)
    ensures IsFirst(original, f) && IsFirstOf(original, f, f)
    ensures forall g: nat | IsFirstOf(original, g, i) :: g == f
  {
    AbsentBefore(original, original[i], f);
    forall g: nat | IsFirstOf(original, g, i) ensures g == f {
      AbsentBefore(original, original[i], g);
    }
  }

  /** A repeated text is read as the position before it that has the same text. */
  lemma RepeatReads(original: seq<string>, keys: seq<string>, number: Reading, i: nat) returns (j: nat)
    requires i < |original| && !IsFirst(original, i) && ReadsNumerals(number)
    ensures j < i && original[j] == original[i]
    ensures Resolved(KeysOf(original, keys), number, i) == Resolved(KeysOf(original, keys), number, j)
  {
    j := LastBefore(original, i, original[i]);
    KeyAt(original, keys, |original|, i);
    hide Decimal;
    var key := KeysOf(original, keys)[i];
    assert key == DUPLICATE + Decimal(j);
    assert Suffix(key) == Decimal(j);
  }

  lemma AsMany(original: seq<string>, keys: seq<string>)
    ensures |KeysOf(original, keys)| == |original|
  {
  }

  lemma SameFirst(original: seq<string>, f: nat, j: nat, i: nat)
    requires j < i && IsFirstOf(original, f, i) && original[j] == original[i]
    ensures IsFirstOf(original, f, j)
  {
    AbsentBefore(original, original[i], f);
  }

  /** As long as no key before misleads, every position is read back. */
  lemma {:induction false} HarmlessReads(original: seq<string>, keys: seq<string>, number: Reading, f: nat, i: nat)
    requires ReadsNumerals(number) && IsFirstOf(original, f, i)
    requires forall g: nat | g <= i && IsFirst(original, g) :: Harmless(original, keys, number, g)
    ensures Resolved(KeysOf(original, keys), number, i) == KeysOf(original, keys)[f]
    decreases i
  {
    AsMany(original, keys);
    hide KeysOf, Decimal;
    if IsFirst(original, i) {
      FirstIsFirst(original, f, i);
      assert f == i by { assert IsFirstOf(original, i, i); }
      assert Harmless(original, keys, number, i);
    } else {
      var j := RepeatReads(original, keys, number, i);
      SameFirst(original, f, j, i);
      HarmlessReads(original, keys, number, f, j);
    }
  }

  /** The first key that misleads is not read back. */
  lemma MisleadingKey(original: seq<string>, keys: seq<string>, number: Reading, f: nat)
    requires ReadsNumerals(number) && f < |original| && IsFirst(original, f) && !Harmless(original, keys, number, f)
    requires forall g: nat | g < f && IsFirst(original, g) :: Harmless(original, keys, number, g)
    requires AllDifferent(KeysOf(original, keys))
    ensures Resolved(KeysOf(original, keys), number, f) != KeysOf(original, keys)[f]
  {
    var ks := KeysOf(original, keys);
    var key := ks[f];
    assert key[0] == DUPLICATE[0] != "undefined"[0];
    var k := number(Suffix(key));
    if k.Some? && k.value < f {
      var h := FirstExists(original, k.value);
      hide KeysOf, Decimal;
      HarmlessReads(original, keys, number, h, k.value);
      TwoOf(ks, h, f);
    } else if k.Some? && f < k.value < |ks| {
      TwoOf(ks, f, k.value);
    }
  }

  /** If the written keys are all different, the loader reads each text under the translation key that was given
      for it iff no such key looks like the number of some other position. */
  lemma ReadBackExactly(original: seq<string>, keys: seq<string>, number: Reading)
    requires ReadsNumerals(number) && AllDifferent(KeysOf(original, keys))
    ensures (forall i: nat | i < |original| :: ReadsBack(original, keys, number, i)) <==>
            (forall f: nat | f < |original| && IsFirst(original, f) :: Harmless(original, keys, number, f))
  {
    AsMany(original, keys);
    hide KeysOf, AllDifferent, Harmless;
    if forall f: nat | f < |original| && IsFirst(original, f) :: Harmless(original, keys, number, f) {
      forall i: nat | i < |original| ensures ReadsBack(original, keys, number, i) {
        forall f: nat | IsFirstOf(original, f, i)
          ensures Resolved(KeysOf(original, keys), number, i) == KeysOf(original, keys)[f]
        {
          HarmlessReads(original, keys, number, f, i);
        }
      }
    } else {
      var f := FirstMisleading(original, keys, number);
      MisleadingKey(original, keys, number, f);
      var g := FirstExists(original, f);
      FirstIsFirst(original, g, f);
      assert g == f by { assert IsFirstOf(original, f, f) by { FirstNotBefore(original, f); } }
      assert !ReadsBack(original, keys, number, f);
    }
  }

  lemma FirstNotBefore(original: seq<string>, f: nat)
    requires f < |original| && IsFirst(original, f)
    ensures IsFirstOf(original, f, f)
  {
    forall k | 0 <= k < f ensures original[..f][k] != original[f] {}
  }

  lemma FirstMisleading(original: seq<string>, keys: seq<string>, number: Reading) returns (f: nat)
    requires exists f: nat | f < |original| && IsFirst(original, f) :: !Harmless(original, keys, number, f)
    ensures f < |original| && IsFirst(original, f) && !Harmless(original, keys, number, f)
    ensures forall g: nat | g < f && IsFirst(original, g) :: Harmless(original, keys, number, g)
  {
    hide Harmless, IsFirst;
    f := 0;
    while !IsFirst(original, f) || Harmless(original, keys, number, f)
      invariant f < |original|
      invariant forall g: nat | g < f && IsFirst(original, g) :: Harmless(original, keys, number, g)
      decreases |original| - f
    {
      f := f + 1;
    }
  }

  /** From end to end: what `Translate` has written and found complete is read back text by text, each with the
      translation key of its text. */
  lemma WrittenIsRead(original: seq<string>, keys: seq<string>, output: map<string, string>, number: Reading,
      f: nat, i: nat)
    requires Holds(output, KeysOf(original, keys), original) && AllDifferent(KeysOf(original, keys))
    requires ReadsNumerals(number) && IsFirstOf(original, f, i)
    requires forall g: nat | g < |original| && IsFirst(original, g) :: Harmless(original, keys, number, g)
    ensures var key := Resolved(KeysOf(original, keys), number, i);
            key == KeysOf(original, keys)[f] && Item(output, key) == Some(original[i])
  {
    hide Harmless;
    HarmlessReads(original, keys, number, f, i);
  }
}
