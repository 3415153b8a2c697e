/**
 * The parts of the Java platform the card classes lean on: null references,
 * the exceptions they throw, 32-bit `int`, `String.trim`, `Integer.toString`
 * and the `ArrayList` operations `indexOf`/`remove(Object)`.
 */
module Lang {

  /** Java's 32-bit signed `int`. */
  newtype int32 = x: int | -0x8000_0000 <= x < 0x8000_0000

  /** A Java reference that may be `null`. */
  datatype Option<+T> = None | Some(value: T)

  /** The exceptions the card classes throw, each with its message. */
  datatype Exception =
    | NullPointerException(message: string)
    | IllegalArgumentException(message: string)
    | ArrayIndexOutOfBoundsException(message: string)

  /** The outcome of a Java call: a returned value or a thrown exception. */
  datatype Result<+T> = Ok(value: T) | Err(error: Exception)

  // ---------------------------------------------------------------------
  // String.trim and String.isEmpty
  // ---------------------------------------------------------------------

  /** `String.trim` strips every character whose code is at most U+0020. */
  predicate IsTrimmable(c: char) {
    c <= ' '
  }

  /** A string that `trim().isEmpty()` reports as empty. */
  predicate IsBlank(s: string) {
    forall k :: 0 <= k < |s| ==> IsTrimmable(s[k])
  }

  /** Number of trimmable characters at the front of `s`. */
  function LeadingBlanks(s: string): (n: nat)
    ensures n <= |s|
    ensures forall k :: 0 <= k < n ==> IsTrimmable(s[k])
    ensures n < |s| ==> !IsTrimmable(s[n])
  {
    if |s| == 0 || !IsTrimmable(s[0]) then 0 else 1 + LeadingBlanks(s[1..])
  }

  /** Number of trimmable characters at the back of `s`. */
  function TrailingBlanks(s: string): (n: nat)
    ensures n <= |s|
    ensures forall k :: |s| - n <= k < |s| ==> IsTrimmable(s[k])
    ensures n < |s| ==> !IsTrimmable(s[|s| - n - 1])
  {
    if |s| == 0 || !IsTrimmable(s[|s| - 1]) then 0
    else 1 + TrailingBlanks(s[..|s| - 1])
  }

  /**
   * `String.trim`: the slice of `s` left after dropping trimmable characters
   * from both ends. Only trimmable characters are dropped, and a non-empty
   * result starts and ends with a character that is kept.
   */
  function Trim(s: string): (r: string)
    ensures LeadingBlanks(s) + |r| <= |s|
    ensures r == s[LeadingBlanks(s)..LeadingBlanks(s) + |r|]
    ensures forall k :: 0 <= k < |s| && !(LeadingBlanks(s) <= k < LeadingBlanks(s) + |r|) ==> IsTrimmable(s[k])
    ensures |r| > 0 ==> !IsTrimmable(r[0]) && !IsTrimmable(r[|r| - 1])
  {
    var rest := s[LeadingBlanks(s)..];
    rest[..|rest| - TrailingBlanks(rest)]
  }

  /** `trim().isEmpty()` holds exactly of the blank strings. */
  lemma TrimEmptyIffBlank(s: string)
    ensures Trim(s) == [] <==> IsBlank(s)
  {
    if Trim(s) != [] {
      assert !IsTrimmable(s[LeadingBlanks(s)]);
    }
  }

  /** Trimming twice is trimming once. */
  lemma TrimIdempotent(s: string)
    ensures Trim(Trim(s)) == Trim(s)
  {
    var r := Trim(s);
    if |r| > 0 {
      assert LeadingBlanks(r) == 0;
      assert TrailingBlanks(r) == 0;
    }
  }

  // ---------------------------------------------------------------------
  // Arrays that may hold null entries
  // ---------------------------------------------------------------------

  /** The non-null entries of `a`, in their original order. */
  function NonNull<T>(a: seq<Option<T>>): (r: seq<T>)
    ensures |r| <= |a|
  {
    if |a| == 0 then []
    else
      var head := if a[0].Some? then [a[0].value] else [];
      head + NonNull(a[1..])
  }

  /** A value survives the filtering exactly when the array holds it. */
  lemma {:induction false} NonNullMembers<T>(a: seq<Option<T>>)
    ensures forall x :: x in NonNull(a) <==> Some(x) in a
    decreases |a|
  {
    if |a| > 0 {
      NonNullMembers(a[1..]);
      assert a == [a[0]] + a[1..];
    }
  }

  /** An array with no null entry holding the elements of `s`. */
  function Lift<T>(s: seq<T>): (a: seq<Option<T>>)
    ensures |a| == |s|
    ensures forall i :: 0 <= i < |s| ==> a[i] == Some(s[i])
  {
    seq(|s|, i requires 0 <= i < |s| => Some(s[i]))
  }

  /** The first `n` entries of a lifted list: the first element, then the next `n - 1`. */
  lemma LiftPrefix<T>(s: seq<T>, n: nat)
    requires 0 < n <= |s|
    ensures Lift(s[..n]) == [Some(s[0])] + Lift(s[1..][..n - 1])
  {
    assert s[..n] == [s[0]] + s[1..][..n - 1];
  }

  /** Filtering nulls distributes over concatenation. */
  lemma {:induction false} NonNullAppend<T>(a: seq<Option<T>>, b: seq<Option<T>>)
    ensures NonNull(a + b) == NonNull(a) + NonNull(b)
    decreases |a|
  {
    if |a| > 0 {
      var head := if a[0].Some? then [a[0].value] else [];
      assert (a + b)[0] == a[0];
      assert (a + b)[1..] == a[1..] + b;
      assert NonNull(a + b) == head + NonNull(a[1..] + b);
      NonNullAppend(a[1..], b);
    } else {
      assert a + b == b;
    }
  }

  /** An array without nulls filters back to the elements it was made from. */
  lemma {:induction false} NonNullLift<T>(s: seq<T>)
    ensures NonNull(Lift(s)) == s
    decreases |s|
  {
    if |s| > 0 {
      assert Lift(s)[1..] == Lift(s[1..]);
      NonNullLift(s[1..]);
    }
  }

  // ---------------------------------------------------------------------
  // Sequences
  // ---------------------------------------------------------------------

  /** `s` read from its last element to its first. */
  function Reverse<T>(s: seq<T>): (r: seq<T>)
    ensures |r| == |s|
    ensures forall i :: 0 <= i < |s| ==> r[i] == s[|s| - 1 - i]
  {
    if |s| == 0 then [] else Reverse(s[1..]) + [s[0]]
  }

  /** Reversing twice gives back the original order. */
  lemma ReverseReverse<T>(s: seq<T>)
    ensures Reverse(Reverse(s)) == s
  {
  }

  /** Reversal reverses the order of the two halves of a concatenation. */
  lemma ReverseAppend<T>(a: seq<T>, b: seq<T>)
    ensures Reverse(a + b) == Reverse(b) + Reverse(a)
  {
  }

  /** Reversal keeps every element with its multiplicity. */
  lemma {:induction false} ReverseMultiset<T>(s: seq<T>)
    ensures multiset(Reverse(s)) == multiset(s)
    decreases |s|
  {
    if |s| > 0 {
      ReverseMultiset(s[1..]);
      assert s == [s[0]] + s[1..];
    }
  }

  /** `ArrayList.indexOf` for an element known to be present: its first position. */
  function FirstIndexOf<T(==)>(s: seq<T>, x: T): (i: nat)
    requires x in s
    ensures i < |s| && s[i] == x
    ensures forall k :: 0 <= k < i ==> s[k] != x
  {
    if s[0] == x then 0 else 1 + FirstIndexOf(s[1..], x)
  }

  /**
   * `ArrayList.remove(Object)`: drops the first element equal to `x`, or
   * leaves the list alone when there is none.
   */
  function RemoveFirst<T(==)>(s: seq<T>, x: T): (r: seq<T>)
    ensures x !in s ==> r == s
    ensures x in s ==> r == s[..FirstIndexOf(s, x)] + s[FirstIndexOf(s, x) + 1..]
  {
    if |s| == 0 then s
    else if s[0] == x then
      assert s == [s[0]] + s[1..];
      s[1..]
    else
      var tail := RemoveFirst(s[1..], x);
      assert s == [s[0]] + s[1..];
      assert x in s ==> [s[0]] + tail == s[..FirstIndexOf(s, x)] + s[FirstIndexOf(s, x) + 1..] by {
        if x in s {
          RemoveFirstPastHead(s, x);
        }
      }
      [s[0]] + tail
  }

  /** When the head is not `x`, cutting out the first `x` happens in the tail. */
  lemma RemoveFirstPastHead<T>(s: seq<T>, x: T)
    requires x in s && s[0] != x
    ensures x in s[1..]
    ensures var i, j := FirstIndexOf(s, x), FirstIndexOf(s[1..], x);
      s[..i] + s[i + 1..] == [s[0]] + (s[1..][..j] + s[1..][j + 1..])
  {
    assert s == [s[0]] + s[1..];
    var j := FirstIndexOf(s[1..], x);
    assert FirstIndexOf(s, x) == j + 1;
    assert s[..j + 1] == [s[0]] + s[1..][..j];
    assert s[j + 2..] == s[1..][j + 1..];
    AppendAssoc([s[0]], s[1..][..j], s[1..][j + 1..]);
  }

  /**
   * Removing the first occurrence of a present `x` takes exactly one copy
   * of it out of the bag: putting `x` back gives the original bag.
   */
  lemma RemoveFirstMultiset<T>(s: seq<T>, x: T)
    requires x in s
    ensures multiset(RemoveFirst(s, x)) + multiset{x} == multiset(s)
  {
    var i := FirstIndexOf(s, x);
    assert s == s[..i] + [x] + s[i + 1..];
  }

  lemma AppendAssoc<T>(a: seq<T>, b: seq<T>, c: seq<T>)
    ensures a + (b + c) == (a + b) + c
  {
  }

  /** Taking the same element out of two equal bags leaves equal bags. */
  lemma CancelOne<T>(a: multiset<T>, b: multiset<T>, x: T)
    requires a + multiset{x} == b + multiset{x}
    ensures a == b
  {
    forall y
      ensures a[y] == b[y]
    {
      assert (a + multiset{x})[y] == (b + multiset{x})[y];
    }
  }

  // ---------------------------------------------------------------------
  // Integer.toString
  // ---------------------------------------------------------------------

  function DigitChar(d: nat): (c: char)
    requires d < 10
    ensures '0' <= c <= '9'
  {
    ('0' as int + d) as char
  }

  /** Decimal digits of `n`, most significant first, without leading zeros. */
  function NatToString(n: nat): (s: string)
    ensures |s| >= 1
    ensures forall k :: 0 <= k < |s| ==> '0' <= s[k] <= '9'
    ensures |s| > 1 ==> s[0] != '0'
  {
    if n < 10 then [DigitChar(n)] else NatToString(n / 10) + [DigitChar(n % 10)]
  }

  /** `Integer.toString` (and string concatenation of an `int`). */
  function IntToString(x: int): (s: string)
    ensures |s| >= 1
    ensures x >= 0 && |s| > 1 ==> s[0] != '0'
    ensures x < 0 ==> |s| >= 2 && s[1] != '0'
    ensures x >= 0 ==> (forall k :: 0 <= k < |s| ==> '0' <= s[k] <= '9') && DecimalValue(s) == x
    ensures x < 0 ==> |s| >= 2 && s[0] == '-' && (forall k :: 1 <= k < |s| ==> '0' <= s[k] <= '9') && DecimalValue(s[1..]) == -x
  {
    if x < 0 then
      NatToStringValue(-x);
      assert ("-" + NatToString(-x))[1..] == NatToString(-x);
      "-" + NatToString(-x)
    else
      NatToStringValue(x);
      NatToString(x)
  }

  /** The number a string of decimal digits denotes. */
  function DecimalValue(s: string): nat
    requires forall k :: 0 <= k < |s| ==> '0' <= s[k] <= '9'
  {
    if |s| == 0 then 0
    else 10 * DecimalValue(s[..|s| - 1]) + (s[|s| - 1] as int - '0' as int)
  }

  /** The decimal rendering denotes the number it renders. */
  lemma {:induction false} NatToStringValue(n: nat)
    ensures DecimalValue(NatToString(n)) == n
    decreases n
  {
    if n >= 10 {
      NatToStringValue(n / 10);
      var s := NatToString(n);
      assert s[..|s| - 1] == NatToString(n / 10);
    }
  }
}
