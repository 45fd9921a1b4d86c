/**
 * The string helpers of utils.go, plus the two pieces of Go's `strings` package
 * that the router relies on: `strings.Index` and `strings.Split(s, "/")`.
 * A Go string is a sequence of bytes. IsAscii and StringToBytes work on `byte`
 * sequences, Index and SubStringLast are generic over the element type, and
 * Split, like the route paths and route names the trie and the router keep,
 * works on Dafny's `string`, a sequence of characters.
 */
module Utils {

  newtype byte = x: int | 0 <= x < 256

  /** unicode.MaxASCII */
  const MaxAscii: byte := 0x7F

  /** isASCII: true exactly when no byte of `s` is above 0x7F (so also for the empty string). */
  method IsAscii(s: seq<byte>) returns (ok: bool)
    ensures ok <==> forall i :: 0 <= i < |s| ==> s[i] <= MaxAscii
  {
    var i := 0;
    while i < |s|
      invariant 0 <= i <= |s|
      invariant forall j :: 0 <= j < i ==> s[j] <= MaxAscii
    {
      if s[i] > MaxAscii {
        return false;
      }
      i := i + 1;
    }
    return true;
  }

  /** `sub` occurs in `s` starting at index `i`. */
  predicate OccursAt<T(==)>(s: seq<T>, sub: seq<T>, i: int)
  {
    0 <= i && i + |sub| <= |s| && s[i..i + |sub|] == sub
  }

  /** strings.Contains */
  predicate Contains<T(==)>(s: seq<T>, sub: seq<T>)
  {
    exists i :: 0 <= i <= |s| - |sub| && OccursAt(s, sub, i)
  }

  /** strings.Index: the first index at which `sub` occurs in `s`, or -1 when it does not occur. */
  function Index<T(==)>(s: seq<T>, sub: seq<T>): (i: int)
    ensures i == -1 <==> !Contains(s, sub)
    ensures i != -1 ==> OccursAt(s, sub, i) && forall j :: 0 <= j < i ==> !OccursAt(s, sub, j)
    decreases |s|
  {
    if |sub| > |s| then -1
    else if s[..|sub|] == sub then
      assert OccursAt(s, sub, 0);
      0
    else
      var j := Index(s[1..], sub);
      assert forall k :: OccursAt(s[1..], sub, k) <==> OccursAt(s, sub, k + 1) by {
        forall k ensures OccursAt(s[1..], sub, k) <==> OccursAt(s, sub, k + 1) {
          if 0 <= k && k + |sub| <= |s| - 1 {
            assert s[1..][k..k + |sub|] == s[k + 1..k + 1 + |sub|];
          }
        }
      }
      if j < 0 then
        assert forall k :: OccursAt(s, sub, k) ==> k == 0 || OccursAt(s[1..], sub, k - 1);
        -1
      else
        assert forall k :: 0 <= k < j + 1 ==> !OccursAt(s, sub, k) by {
          forall k | 0 <= k < j + 1 ensures !OccursAt(s, sub, k) {
            if k > 0 {
              assert !OccursAt(s[1..], sub, k - 1);
            }
          }
        }
        j + 1
  }

  /**
   * SubStringLast: what follows the FIRST occurrence of `sub` in `s`, or the empty
   * string when `sub` does not occur.
   */
  function SubStringLast<T(==)>(s: seq<T>, sub: seq<T>): (r: seq<T>)
    ensures |r| <= |s| && r == s[|s| - |r|..]
    ensures !Contains(s, sub) ==> r == []
    ensures Contains(s, sub) ==>
              var k := |s| - |r| - |sub|;
              && OccursAt(s, sub, k)
              && s == s[..k] + sub + r
              && forall j :: 0 <= j < k ==> !OccursAt(s, sub, j)
    ensures sub == [] ==> r == s
  {
    var index := Index(s, sub);
    if index == -1 then
      []
    else
      assert s == s[..index] + s[index..index + |sub|] + s[index + |sub|..];
      if sub == [] then assert OccursAt(s, sub, 0); s[index + |sub|..] else s[index + |sub|..]
  }

  /** StringToBytes reinterprets the string's storage: the bytes are the string's own. */
  function StringToBytes(s: seq<byte>): (b: seq<byte>)
    ensures |b| == |s| && forall i :: 0 <= i < |s| ==> b[i] == s[i]
  {
    s
  }

  /** Concatenation is associative (a step the solver does not always find by itself). */
  lemma ConcatAssoc<T>(a: seq<T>, b: seq<T>, c: seq<T>)
    ensures (a + b) + c == a + (b + c)
  {
  }

  /** The pieces of `parts` joined by '/' (the inverse of strings.Split with separator "/"). */
  function Join(parts: seq<string>): string
    requires |parts| >= 1
    decreases |parts|
  {
    if |parts| == 1 then parts[0] else parts[0] + "/" + Join(parts[1..])
  }

  /** strings.Split(s, "/"): the maximal '/'-free pieces between separators; Split("") == [""]. */
  function Split(s: string): (parts: seq<string>)
    ensures |parts| >= 1
    ensures forall k :: 0 <= k < |parts| ==> '/' !in parts[k]
    ensures Join(parts) == s
    decreases |s|
  {
    if |s| == 0 then
      [""]
    else
      var rest := Split(s[1..]);
      if s[0] == '/' then
        assert Join([""] + rest) == "" + "/" + Join(rest);
        assert s == [s[0]] + s[1..];
        [""] + rest
      else
        var parts := [[s[0]] + rest[0]] + rest[1..];
        assert s == [s[0]] + s[1..];
        if |rest| == 1 then
          parts
        else
          assert Join(parts) == [s[0]] + rest[0] + "/" + Join(rest[1..]);
          assert Join(rest) == rest[0] + "/" + Join(rest[1..]);
          parts
  }

  /** Splitting undoes joining '/'-free pieces, so Split and Join are inverse bijections. */
  lemma {:induction false} SplitJoin(parts: seq<string>)
    requires |parts| >= 1
    requires forall k :: 0 <= k < |parts| ==> '/' !in parts[k]
    ensures Split(Join(parts)) == parts
    decreases |parts|, |parts[0]|
  {
    if |parts[0]| == 0 {
      if |parts| > 1 {
        SplitJoin(parts[1..]);
        assert Join(parts) == "/" + Join(parts[1..]);
        assert ("/" + Join(parts[1..]))[1..] == Join(parts[1..]);
        assert parts == [""] + parts[1..];
      }
    } else {
      var c := parts[0][0];
      var tail := [parts[0][1..]] + parts[1..];
      assert forall k :: 0 <= k < |tail| ==> '/' !in tail[k] by {
        forall k | 0 <= k < |tail| ensures '/' !in tail[k] {
          if k == 0 {
            assert forall x :: x in parts[0][1..] ==> x in parts[0];
          } else {
            assert tail[k] == parts[k];
          }
        }
      }
      SplitJoin(tail);
      assert c != '/' by { assert c in parts[0]; }
      assert parts[0] == [c] + parts[0][1..];
      if |parts| == 1 {
        assert Join(parts) == [c] + Join(tail);
      } else {
        assert Join(parts) == [c] + Join(tail) by {
          assert Join(tail) == parts[0][1..] + "/" + Join(parts[1..]);
        }
      }
      assert Join(parts)[1..] == Join(tail);
      assert Join(parts) != [] && Join(parts)[0] == c;
      var rest := Split(Join(parts)[1..]);
      assert rest == tail;
      assert [[c] + rest[0]] + rest[1..] == parts;
    }
  }
}
