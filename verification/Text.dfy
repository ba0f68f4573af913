/** Byte strings as C sees them: `At(t, |t|)` is the terminating NUL, and nothing after it may be read. */
module Text {
  type byte = x: int | 0 <= x < 256
  type bytes = seq<byte>

  /** The value of an int in a uint32_t: it wraps around. */
  function Unsigned(x: int): (r: nat)
    ensures r < 0x1_0000_0000
    decreases x < 0, if x < 0 then 0 - x else x
  {
    if x < 0 then Unsigned(x + 0x1_0000_0000)
    else if x >= 0x1_0000_0000 then Unsigned(x - 0x1_0000_0000)
    else x
  }

  lemma {:induction false} UnsignedIsRemainder(x: int)
    ensures Unsigned(x) == x % 0x1_0000_0000
    decreases x < 0, if x < 0 then 0 - x else x
  {
    if x < 0 {
      UnsignedIsRemainder(x + 0x1_0000_0000);
    } else if x >= 0x1_0000_0000 {
      UnsignedIsRemainder(x - 0x1_0000_0000);
    }
  }

  datatype Option<+T> = None | Some(value: T)

  predicate NulFree(s: bytes) {
    forall i :: 0 <= i < |s| ==> s[i] != 0
  }

  function At(t: bytes, i: nat): byte
    requires i <= |t|
  {
    if i < |t| then t[i] else 0
  }

  /** What `strlen` and `strcmp` see of a buffer: the bytes before its first NUL. */
  function CString(s: bytes): (r: bytes)
    ensures NulFree(r) && r <= s
    ensures |r| < |s| ==> s[|r|] == 0
  {
    if s == [] || s[0] == 0 then [] else [s[0]] + CString(s[1..])
  }

  lemma {:induction false} CStringOfNulFree(s: bytes)
    requires NulFree(s)
    ensures CString(s) == s
  {
    if s != [] {
      CStringOfNulFree(s[1..]);
    }
  }

  /** Names an index that a proof looks at: the trigger of quantifiers over long sequences. */
  predicate Index(k: int) {
    true
  }

  /** The bytes `s` stand in `t` from position `i` on.  */
  ghost predicate Has(t: bytes, i: nat, s: bytes) {
    i + |s| <= |t| && forall k {:trigger Index(k)} :: 0 <= k < |s| && Index(k) ==> t[i + k] == s[k]
  }

  /** strncmp(s + k, t + i + k, strlen(s) - k) == 0 */
  predicate MatchesFrom(t: bytes, i: nat, s: bytes, k: nat)
    requires k <= |s|
    decreases |s| - k
  {
    k == |s| || (i + k < |t| && t[i + k] == s[k] && MatchesFrom(t, i, s, k + 1))
  }

  predicate Matches(t: bytes, i: nat, s: bytes)
    requires i <= |t|
    ensures Matches(t, i, s) <==> Has(t, i, s)
  {
    MatchesIsHas(t, i, s, 0);
    MatchesFrom(t, i, s, 0)
  }

  lemma {:induction false} MatchesIsHas(t: bytes, i: nat, s: bytes, k: nat)
    requires k <= |s| && i + k <= |t|
    requires forall j {:trigger Index(j)} :: 0 <= j < k && Index(j) ==> t[i + j] == s[j]
    ensures MatchesFrom(t, i, s, k) <==> Has(t, i, s)
    decreases |s| - k
  {
    assert Index(k);
    if k < |s| && i + k < |t| && t[i + k] == s[k] {
      MatchesIsHas(t, i, s, k + 1);
    }
  }

  lemma HasSlice(t: bytes, i: nat, s: bytes)
    ensures Has(t, i, s) <==> i + |s| <= |t| && t[i..i + |s|] == s
  {
    if i + |s| <= |t| && t[i..i + |s|] == s {
      forall k | 0 <= k < |s| && Index(k) ensures t[i + k] == s[k] {
        assert t[i..i + |s|][k] == s[k];
      }
    } else if Has(t, i, s) {
      forall k | 0 <= k < |s| ensures t[i..i + |s|][k] == s[k] {
        assert Index(k);
      }
    }
  }

  lemma HasAppend(t: bytes, i: nat, a: bytes, b: bytes)
    ensures Has(t, i, a + b) <==> Has(t, i, a) && Has(t, i + |a|, b)
  {
    if Has(t, i, a + b) {
      forall k | 0 <= k < |b| && Index(k) ensures t[i + |a| + k] == b[k] {
        assert Index(|a| + k) && (a + b)[|a| + k] == b[k];
      }
      forall k | 0 <= k < |a| && Index(k) ensures t[i + k] == a[k] {
        assert (a + b)[k] == a[k];
      }
    } else if Has(t, i, a) && Has(t, i + |a|, b) {
      forall k | 0 <= k < |a + b| && Index(k) ensures t[i + k] == (a + b)[k] {
        assert Index(k - |a|);
      }
    }
  }

  lemma HasFirst(t: bytes, i: nat, s: bytes)
    requires Has(t, i, s) && s != []
    ensures i < |t| && At(t, i) == t[i] == s[0]
  {
    assert Index(0);
  }
}
