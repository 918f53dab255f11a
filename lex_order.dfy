/**
 * Bytes and the unsigned byte-wise lexicographic order that Rust's `<=`
 * gives two `[u8; 32]` arrays.
 */
module LexOrder {

  /** An unsigned 8-bit value, Rust's `u8`. */
  newtype byte = x: int | 0 <= x < 256

  /**
   * Lexicographic `<=` on byte strings: compare the first bytes as unsigned
   * numbers, and on a tie compare the rests; a prefix is below its extensions.
   */
  predicate LexLe(a: seq<byte>, b: seq<byte>)
    decreases |a|
  {
    if |a| == 0 then true
    else if |b| == 0 then false
    else a[0] < b[0] || (a[0] == b[0] && LexLe(a[1..], b[1..]))
  }

  /**
   * With LexLeTransitive, LexLeTotal and LexLeAntisymmetric: LexLe is a total
   * order, as Rust's `Ord` on byte arrays is.
   */
  lemma {:induction false} LexLeReflexive(a: seq<byte>)
    ensures LexLe(a, a)
    decreases |a|
  {
    if |a| > 0 {
      LexLeReflexive(a[1..]);
    }
  }

  /** Any two byte strings are comparable. */
  lemma {:induction false} LexLeTotal(a: seq<byte>, b: seq<byte>)
    ensures LexLe(a, b) || LexLe(b, a)
    decreases |a|
  {
    if |a| > 0 && |b| > 0 && a[0] == b[0] {
      LexLeTotal(a[1..], b[1..]);
    }
  }

  /** Two byte strings each below the other are equal. */
  lemma {:induction false} LexLeAntisymmetric(a: seq<byte>, b: seq<byte>)
    requires LexLe(a, b) && LexLe(b, a)
    ensures a == b
    decreases |a|
  {
    if |a| > 0 {
      LexLeAntisymmetric(a[1..], b[1..]);
      assert a == [a[0]] + a[1..];
      assert b == [b[0]] + b[1..];
    }
  }

  /** Transitivity, the remaining total-order law (see LexLeReflexive). */
  lemma {:induction false} LexLeTransitive(a: seq<byte>, b: seq<byte>, c: seq<byte>)
    requires LexLe(a, b) && LexLe(b, c)
    ensures LexLe(a, c)
    decreases |a|
  {
    if |a| > 0 && |b| > 0 && |c| > 0 && a[0] == b[0] == c[0] {
      LexLeTransitive(a[1..], b[1..], c[1..]);
    }
  }

  /**
   * For strings of one length, `LexLe` is the usual array comparison: the
   * strings are equal, or at the first index where they differ `a` holds
   * the smaller byte.
   */
  lemma {:induction false} LexLeFirstDifference(a: seq<byte>, b: seq<byte>)
    requires |a| == |b|
    ensures LexLe(a, b) <==> (a == b || exists i :: 0 <= i < |a| && a[..i] == b[..i] && a[i] < b[i])
    decreases |a|
  {
    if |a| == 0 {
    } else if a[0] < b[0] {
      assert a[..0] == b[..0];
    } else if a[0] > b[0] {
      assert a != b;
      forall i | 0 <= i < |a| && a[..i] == b[..i]
        ensures a[i] >= b[i]
      {
      }
    } else {
      var a', b' := a[1..], b[1..];
      LexLeFirstDifference(a', b');
      assert a == [a[0]] + a';
      assert b == [b[0]] + b';
      if LexLe(a, b) {
        if a' != b' {
          var j :| 0 <= j < |a'| && a'[..j] == b'[..j] && a'[j] < b'[j];
          assert a[..j + 1] == [a[0]] + a'[..j];
          assert b[..j + 1] == [b[0]] + b'[..j];
          assert a[j + 1] < b[j + 1];
        }
      } else {
        assert a != b;
        forall i | 0 <= i < |a| && a[..i] == b[..i]
          ensures a[i] >= b[i]
        {
          if i > 0 {
            assert a'[..i - 1] == a[..i][1..];
            assert b'[..i - 1] == b[..i][1..];
            assert a'[i - 1] >= b'[i - 1];
          }
        }
      }
    }
  }
}
