/** Machine words, sizes and the option type shared by every layer. */
module Words {

  const WORD_LIMIT: nat := 0x1_0000_0000

  /** A 32-bit unsigned value. */
  type Word = x: nat | x < 0x1_0000_0000

  const FRAME_COUNT: nat := 0x10_0000
  const BITMAP_SIZE: nat := 0x8000

  /** `(uint32_t)-1`, the failure value of the frame allocator. */
  const NO_FRAME: Word := 0xFFFF_FFFF

  datatype Option<+T> = None | Some(value: T)

  /** 32-bit wrap-around of an unsigned sum or product. */
  function Wrap(x: nat): Word {
    x % 0x1_0000_0000
  }

  /** The sequence without its element i. */
  function RemoveAt<T>(s: seq<T>, i: nat): (r: seq<T>)
    requires i < |s|
    ensures |r| == |s| - 1
    ensures forall k | 0 <= k < |r| :: r[k] == if k < i then s[k] else s[k + 1]
  {
    s[..i] + s[i + 1..]
  }

  ghost predicate Distinct<T>(s: seq<T>) {
    forall i, j :: 0 <= i < j < |s| ==> s[i] != s[j]
  }

  lemma DistinctParts<T>(a: seq<T>, b: seq<T>)
    ensures Distinct(a + b) <==> Distinct(a) && Distinct(b) && forall x | x in a :: x !in b
  {
    if Distinct(a) && Distinct(b) && forall x | x in a :: x !in b {
      forall i, j | 0 <= i < j < |a + b| ensures (a + b)[i] != (a + b)[j] {
        if i < |a| <= j {
          assert (a + b)[i] in a && (a + b)[j] == b[j - |a|];
        }
      }
    }
    if Distinct(a + b) {
      forall i, j | 0 <= i < j < |a| ensures a[i] != a[j] {
        assert (a + b)[i] != (a + b)[j];
      }
      forall i, j | 0 <= i < j < |b| ensures b[i] != b[j] {
        assert (a + b)[|a| + i] != (a + b)[|a| + j];
      }
      forall x | x in a ensures x !in b {
        var i :| 0 <= i < |a| && a[i] == x;
        forall j | 0 <= j < |b| ensures b[j] != x {
          assert (a + b)[i] != (a + b)[|a| + j];
        }
      }
    }
  }
}
