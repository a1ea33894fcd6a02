/** String helpers shared by the clone engine and the store: `Array.prototype.join`,
    `String.prototype.split("\n")`, and the infix relation used to state compositionality. */
module Text {

  /** `parts.join(sep)`: the parts in order, with `sep` between neighbours. */
  function Join(sep: string, parts: seq<string>): (joined: string)
    decreases |parts|
  {
    if |parts| == 0 then ""
    else if |parts| == 1 then parts[0]
    else parts[0] + sep + Join(sep, parts[1..])
  }

  /** Where `parts[i]` starts inside `Join(sep, parts)`. */
  function JoinOffset(sep: string, parts: seq<string>, i: nat): (offset: nat)
    requires i <= |parts|
  {
    if i == 0 then 0 else |Join(sep, parts[..i])| + |sep|
  }

  /** `s.split("\n")`: the text between consecutive line feeds; never empty. */
  function Lines(s: string): (ls: seq<string>)
    ensures |ls| >= 1
    decreases |s|
  {
    if s == [] then [""]
    else
      var rest := Lines(s[1..]);
      if s[0] == '\n' then [""] + rest else [[s[0]] + rest[0]] + rest[1..]
  }

  /** `x` occurs in `s` starting at index `i`. */
  predicate InfixAt(x: string, s: string, i: int) {
    0 <= i && i + |x| <= |s| && s[i..i + |x|] == x
  }

  /** `x` occurs as a contiguous piece of `s`. */
  ghost predicate IsInfix(x: string, s: string) {
    exists i :: InfixAt(x, s, i)
  }

  lemma InfixOfConcat(a: string, x: string, b: string)
    ensures IsInfix(x, a + x + b)
  {
    var s := a + x + b;
    assert InfixAt(x, s, |a|);
  }

  lemma InfixTransitive(x: string, y: string, z: string)
    requires IsInfix(x, y) && IsInfix(y, z)
    ensures IsInfix(x, z)
  {
    var i :| InfixAt(x, y, i);
    var j :| InfixAt(y, z, j);
    forall k | 0 <= k < |x|
      ensures z[j + i..j + i + |x|][k] == x[k]
    {
      assert x[k] == y[i + k] == z[j + i + k];
    }
    assert InfixAt(x, z, j + i);
  }

  /** Joining splits at any inner index into the join of the two halves. */
  lemma {:induction false} JoinSplit(sep: string, parts: seq<string>, i: nat)
    requires 0 < i < |parts|
    ensures Join(sep, parts) == Join(sep, parts[..i]) + sep + Join(sep, parts[i..])
    decreases i
  {
    if i > 1 {
      JoinSplit(sep, parts[1..], i - 1);
      assert parts[1..][..i - 1] == parts[1..i];
      assert parts[1..][i - 1..] == parts[i..];
      assert parts[..i][1..] == parts[1..i];
    }
  }

  lemma {:induction false} JoinStartsWithFirst(sep: string, parts: seq<string>)
    requires |parts| > 0
    ensures |parts[0]| <= |Join(sep, parts)|
    ensures Join(sep, parts)[..|parts[0]|] == parts[0]
  {
    if |parts| > 1 {
      var j := Join(sep, parts);
      assert j == parts[0] + (sep + Join(sep, parts[1..]));
    }
  }

  /** Part `i` sits, verbatim, at `JoinOffset(sep, parts, i)`. */
  lemma {:induction false} JoinAt(sep: string, parts: seq<string>, i: nat)
    requires i < |parts|
    ensures JoinOffset(sep, parts, i) + |parts[i]| <= |Join(sep, parts)|
    ensures Join(sep, parts)[JoinOffset(sep, parts, i)..JoinOffset(sep, parts, i) + |parts[i]|] == parts[i]
  {
    if i == 0 {
      JoinStartsWithFirst(sep, parts);
    } else {
      JoinSplit(sep, parts, i);
      var left := Join(sep, parts[..i]);
      var right := Join(sep, parts[i..]);
      JoinStartsWithFirst(sep, parts[i..]);
      var o := JoinOffset(sep, parts, i);
      assert o == |left| + |sep|;
      assert Join(sep, parts) == (left + sep) + right;
      assert Join(sep, parts)[o..o + |parts[i]|] == right[..|parts[i]|];
    }
  }

  /** Parts appear in order and do not overlap: part `i` ends before part `i + 1` starts. */
  lemma {:induction false} JoinOffsetsAdvance(sep: string, parts: seq<string>, i: nat)
    requires i + 1 < |parts|
    ensures JoinOffset(sep, parts, i) + |parts[i]| + |sep| == JoinOffset(sep, parts, i + 1)
  {
    if i == 0 {
      assert parts[..1] == [parts[0]];
    } else {
      JoinSplit(sep, parts[..i + 1], i);
      assert parts[..i + 1][..i] == parts[..i];
      assert parts[..i + 1][i..] == [parts[i]];
    }
  }

  lemma {:induction false} JoinWithout(c: char, sep: string, parts: seq<string>)
    requires c !in sep
    requires forall i :: 0 <= i < |parts| ==> c !in parts[i]
    ensures c !in Join(sep, parts)
    decreases |parts|
  {
    if |parts| > 1 {
      JoinWithout(c, sep, parts[1..]);
    }
  }

  lemma {:induction false} JoinInfix(sep: string, parts: seq<string>, i: nat)
    requires i < |parts|
    ensures IsInfix(parts[i], Join(sep, parts))
  {
    JoinAt(sep, parts, i);
    assert InfixAt(parts[i], Join(sep, parts), JoinOffset(sep, parts, i));
  }

  /** Splitting at a line feed splits the lines. */
  lemma {:induction false} LinesConcat(a: string, b: string)
    ensures Lines(a + "\n" + b) == Lines(a) + Lines(b)
    decreases |a|
  {
    var s := a + "\n" + b;
    if a == [] {
      assert s[1..] == b;
    } else {
      assert s[1..] == a[1..] + "\n" + b;
      LinesConcat(a[1..], b);
    }
  }

  lemma {:induction false} LinesSingle(a: string)
    requires '\n' !in a
    ensures Lines(a) == [a]
    decreases |a|
  {
    if a != [] {
      LinesSingle(a[1..]);
      assert [a[0]] + a[1..] == a;
    }
  }

  /** Lines of a newline-joined list of single-line texts are those texts. */
  lemma {:induction false} LinesOfJoin(parts: seq<string>)
    requires |parts| > 0
    requires forall i :: 0 <= i < |parts| ==> '\n' !in parts[i]
    ensures Lines(Join("\n", parts)) == parts
    decreases |parts|
  {
    if |parts| == 1 {
      LinesSingle(parts[0]);
    } else {
      LinesOfJoin(parts[1..]);
      LinesConcat(parts[0], Join("\n", parts[1..]));
      LinesSingle(parts[0]);
    }
  }
}
