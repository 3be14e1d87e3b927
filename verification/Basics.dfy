/** What several of the modules share. */
module Basics {

  datatype Option<+T> = None | Some(value: T)

  type byte = n: int | 0 <= n < 0x100
  type u16 = n: int | 0 <= n < 0x1_0000

  function Min(a: int, b: int): int { if a < b then a else b }

  function Max(a: int, b: int): int { if a < b then b else a }

  lemma MulUp(n: int, a: int, b: int)
    requires 0 <= n && a <= b
    ensures n * a <= n * b && a * n <= b * n
  {
  }

  lemma Joins<T>(a: seq<T>, b: seq<T>, c: seq<T>)
    ensures a + (b + c) == a + b + c
  {
  }

  lemma HeadJoins<T>(a: seq<T>, b: seq<T>)
    requires a != []
    ensures a + b != [] && (a + b)[0] == a[0] && (a + b)[1..] == a[1..] + b
  {
  }

  lemma EmptyJoins<T>(a: seq<T>)
    ensures [] + a == a && a + [] == a
  {
  }

  lemma CutAgain<T>(s: seq<T>, i: nat, j: nat)
    requires i <= j <= |s|
    ensures s[i..] == s[i..j] + s[j..]
  {
  }

  /** A part of what is left of s from i on. */
  lemma PartOfRest<T>(s: seq<T>, i: nat, from: nat, to: nat)
    requires from <= to && i + to <= |s|
    ensures s[i + from..i + to] == s[i..][from..to] && s[i + to..] == s[i..][to..]
  {
  }

  /** A part of a part. */
  lemma PartOfPart<T>(s: seq<T>, i: nat, j: nat, from: nat, to: nat)
    requires i <= j <= |s| && from <= to <= j - i
    ensures s[i..j][from..to] == s[i + from..i + to]
  {
    forall k | 0 <= k < to - from ensures s[i..j][from..to][k] == s[i + from..i + to][k] {
      assert s[i..j][from + k] == s[i + (from + k)];
    }
  }

  /** The last `n` elements, or everything when there are fewer. */
  function Last<T>(n: nat, s: seq<T>): (r: seq<T>)
    ensures |r| == if |s| <= n then |s| else n
  {
    if |s| <= n then s else s[|s| - n..]
  }

  /** A position in a ring of n places, at most once around. */
  function Wrapped(k: nat, n: nat): nat { if k < n then k else k - n }

  lemma WrappedIsModulo(k: nat, n: nat)
    requires 0 < n && k < 2 * n
    ensures k % n == Wrapped(k, n)
  {
    if k >= n {
      assert k == n + (k - n);
    }
  }

  /** What comes before a rest that may have failed. */
  function Prefixed<T>(head: seq<T>, rest: Option<seq<T>>): Option<seq<T>> {
    if rest.None? then None else Some(head + rest.value)
  }

  lemma PrefixedTwice<T>(a: seq<T>, b: seq<T>, rest: Option<seq<T>>)
    ensures Prefixed(a, Prefixed(b, rest)) == Prefixed(a + b, rest)
    ensures Prefixed([], rest) == rest
  {
    if rest.Some? {
      Joins(a, b, rest.value);
      EmptyJoins(rest.value);
    }
  }

  /** s with a part of it overwritten. */
  function Overlaid<T>(s: seq<T>, at: nat, part: seq<T>): (r: seq<T>)
    requires at + |part| <= |s|
    ensures |r| == |s|
  {
    seq(|s|, i requires 0 <= i < |s| => if at <= i < at + |part| then part[i - at] else s[i])
  }

  /** Byte strings in dictionary order. */
  predicate TextLess(a: seq<byte>, b: seq<byte>) {
    b != [] && (a == [] || a[0] < b[0] || (a[0] == b[0] && TextLess(a[1..], b[1..])))
  }

  /** The first byte in which they differ is less. */
  ghost predicate LessAt(a: seq<byte>, b: seq<byte>, k: int) {
    0 <= k < |a| && k < |b| && a[..k] == b[..k] && a[k] < b[k]
  }

  lemma LessLater(x: byte, a: seq<byte>, b: seq<byte>, k: int)
    ensures LessAt([x] + a, [x] + b, k + 1) <==> LessAt(a, b, k)
  {
    if 0 <= k < |a| && k < |b| {
      assert ([x] + a)[..k + 1] == [x] + a[..k] && ([x] + b)[..k + 1] == [x] + b[..k];
      assert a[..k] == ([x] + a[..k])[1..] && b[..k] == ([x] + b[..k])[1..];
    }
  }

  lemma SameFirst(a: seq<byte>, b: seq<byte>, k: int)
    requires LessAt(a, b, k) && k > 0
    ensures a[0] == b[0]
  {
    assert a[..k][0] == b[..k][0];
  }

  /** Dictionary order: the first byte in which they differ is less, or the shorter one is the beginning of the
      longer one. */
  lemma {:induction false} TextLessMeans(a: seq<byte>, b: seq<byte>)
    ensures TextLess(a, b) <==> a < b || exists k :: LessAt(a, b, k)
  {
    if a != [] && b != [] {
      if a[0] == b[0] {
        var rest, rest' := a[1..], b[1..];
        assert a == [a[0]] + rest && b == [b[0]] + rest';
        TextLessMeans(rest, rest');
        assert a < b <==> rest < rest';
        if k :| LessAt(a, b, k) {
          LessLater(a[0], rest, rest', k - 1);
        }
        if k :| LessAt(rest, rest', k) {
          LessLater(a[0], rest, rest', k);
          assert LessAt(a, b, k + 1);
        }
      } else {
        assert a[0] < b[0] ==> LessAt(a, b, 0);
        if k :| LessAt(a, b, k) {
          if k > 0 {
            SameFirst(a, b, k);
          }
        }
      }
    }
    hide LessAt;
  }

  lemma {:induction false} TextOrder(a: seq<byte>, b: seq<byte>)
    ensures !(TextLess(a, b) && TextLess(b, a))
    ensures !TextLess(a, b) && !TextLess(b, a) <==> a == b
  {
    if a != [] && b != [] {
      TextOrder(a[1..], b[1..]);
      if a[0] == b[0] {
        assert a == [a[0]] + a[1..] && b == [b[0]] + b[1..];
      }
    }
  }

  lemma {:induction false} TextTransitive(a: seq<byte>, b: seq<byte>, c: seq<byte>)
    requires !TextLess(b, a) && !TextLess(c, b)
    ensures !TextLess(c, a)
  {
    if a != [] && b != [] && c != [] {
      if a[0] == b[0] == c[0] {
        TextTransitive(a[1..], b[1..], c[1..]);
      }
    }
  }
}
