/** The two textual repairs applied to a leaf's generated text (src/index.ts:8-9, 56-58).

    Both are `String.prototype.replace` with a global regular expression, modelled exactly:
    the text is scanned from the left; where the pattern matches, the whole match is
    replaced and scanning resumes after it; elsewhere one character is copied and
    scanning moves on by one.

    - `typeNameRegex`, `/"typeName":"(Zod[A-Za-z0-9_]+)"/g`, becomes
      `"typeName":z.ZodFirstPartyTypeKind.$1`. The word class excludes `"`, so at a given
      position there is at most one match: the maximal word run, then a `"`.
    - `stringRegex`, `/"regex":"\/(.+)\/"/g`, becomes `"regex":/$1/`. `.` is every
      character but a line terminator and `.+` is greedy, so the capture runs to the LAST
      `/"` on the line. */
module Repair {

  /** What `typeNameRegex` matches before the word run: `"typeName":"Zod`. */
  const TypeNamePrefix: string := "\"typeName\":\"Zod"
  /** What the captured `Zod…` word is written after: `"typeName":z` then `.ZodFirstPartyTypeKind.` */
  const TypeNameReplacement: string := TypeNameEnumHead + EnumPath
  const TypeNameEnumHead: string := "\"typeName\":z"
  const EnumPath: string := ".ZodFirstPartyTypeKind."
  /** What `stringRegex` matches before the capture: `"regex":"/`. */
  const RegexPrefix: string := "\"regex\":\"/"
  /** What the capture is written after; a `/` follows it. */
  const RegexReplacement: string := "\"regex\":/"

  /** `[A-Za-z0-9_]` */
  predicate IsWordChar(c: char) {
    'A' <= c <= 'Z' || 'a' <= c <= 'z' || '0' <= c <= '9' || c == '_'
  }

  /** Every character of a `typeNameRegex` match is one of these. */
  predicate InTypeNameAlphabet(c: char) {
    c == '"' || c == ':' || IsWordChar(c)
  }

  /** The characters `.` does not match without the `s` flag. */
  predicate IsLineTerminator(c: char) {
    c == '\n' || c == '\r' || c == '\U{2028}' || c == '\U{2029}'
  }

  // ---------------------------------------------------------------------------
  // typeNameRegex

  /** Length of the longest run of word characters at the start of `s`. */
  function WordRun(s: string): (n: nat)
    ensures n <= |s|
    ensures forall i :: 0 <= i < n ==> IsWordChar(s[i])
    ensures n < |s| ==> !IsWordChar(s[n])
    decreases |s|
  {
    if |s| > 0 && IsWordChar(s[0]) then 1 + WordRun(s[1..]) else 0
  }

  /** `typeNameRegex` matches exactly the first `n` characters of `s`. */
  predicate IsTypeNameMatch(s: string, n: int) {
    && 16 < n <= |s|
    && s[..15] == TypeNamePrefix
    && (forall i :: 15 <= i < n - 1 ==> IsWordChar(s[i]))
    && s[n - 1] == '"'
  }

  /** Length of the `typeNameRegex` match at the start of `s`; 0 when there is none.
      The match, when there is one, is the only one. */
  function TypeNameMatch(s: string): (n: nat)
    ensures n > 0 ==> IsTypeNameMatch(s, n)
    ensures forall m :: IsTypeNameMatch(s, m) ==> m == n
  {
    if |s| >= 15 && s[..15] == TypeNamePrefix then
      var run := WordRun(s[15..]);
      if run > 0 && 15 + run < |s| && s[15 + run] == '"' then 16 + run else 0
    else 0
  }

  /** `stringified.replace(typeNameRegex, '"typeName":z.ZodFirstPartyTypeKind.$1')` */
  function RepairTypeNames(s: string): (repaired: string)
    decreases |s|
  {
    if s == [] then []
    else
      var n := TypeNameMatch(s);
      if n > 0 then TypeNameReplacement + s[12..n - 1] + RepairTypeNames(s[n..])
      else [s[0]] + RepairTypeNames(s[1..])
  }

  /** No quoted `"typeName":"Zod…"` literal is left: `typeNameRegex` matches nowhere in `s`. */
  predicate NoTypeNameLiteral(s: string) {
    forall i {:trigger TypeNameMatch(s[i..])} :: 0 <= i < |s| ==> TypeNameMatch(s[i..]) == 0
  }

  // ---------------------------------------------------------------------------
  // stringRegex

  /** How far `.` can reach: the length of the prefix of `t` before its first line terminator. */
  function LineLength(t: string): (n: nat)
    ensures n <= |t|
    ensures forall i :: 0 <= i < n ==> !IsLineTerminator(t[i])
    ensures n < |t| ==> IsLineTerminator(t[n])
    decreases |t|
  {
    if t == [] || IsLineTerminator(t[0]) then 0 else 1 + LineLength(t[1..])
  }

  /** `/"` starts at index `k` of `t`. */
  predicate ClosesAt(t: string, k: int) {
    0 <= k && k + 2 <= |t| && t[k] == '/' && t[k + 1] == '"'
  }

  /** The largest `k >= 1` with `/"` at `k` and ending by `limit`; 0 when there is none. */
  function LastClose(t: string, limit: nat): (k: nat)
    requires limit <= |t|
    ensures k > 0 ==> k + 2 <= limit && ClosesAt(t, k)
    ensures forall j :: 0 < j && j + 2 <= limit && ClosesAt(t, j) ==> j <= k
    decreases limit
  {
    if limit < 3 then 0
    else if ClosesAt(t, limit - 2) then limit - 2
    else LastClose(t, limit - 1)
  }

  /** `stringRegex` matches at the start of `s` with a capture of `k` characters. */
  predicate IsRegexMatch(s: string, k: int) {
    && |s| >= 10
    && s[..10] == RegexPrefix
    && 0 < k
    && 10 + k + 2 <= |s|
    && (forall i :: 10 <= i < 10 + k ==> !IsLineTerminator(s[i]))
    && s[10 + k] == '/'
    && s[10 + k + 1] == '"'
  }

  /** Capture length of `stringRegex` at the start of `s`; 0 when it does not match there.
      `.+` is greedy: of all the captures the pattern allows, the longest is taken. */
  function RegexMatch(s: string): (k: nat)
    ensures k > 0 ==> IsRegexMatch(s, k)
    ensures forall j :: IsRegexMatch(s, j) ==> 0 < j <= k
  {
    if |s| >= 10 && s[..10] == RegexPrefix then
      var t := s[10..];
      var k := LastClose(t, LineLength(t));
      assert forall j :: IsRegexMatch(s, j) ==> j + 2 <= LineLength(t) && ClosesAt(t, j);
      k
    else 0
  }

  /** `.replace(stringRegex, '"regex":/$1/')` */
  function RepairRegexes(s: string): (repaired: string)
    decreases |s|
  {
    if s == [] then []
    else
      var k := RegexMatch(s);
      if k > 0 then RegexReplacement + s[10..10 + k] + "/" + RepairRegexes(s[10 + k + 2..])
      else [s[0]] + RepairRegexes(s[1..])
  }

  /** `stringRegex` matches nowhere in `s`. */
  predicate NoRegexLiteral(s: string) {
    forall i {:trigger RegexMatch(s[i..])} :: 0 <= i < |s| ==> RegexMatch(s[i..]) == 0
  }

  // ---------------------------------------------------------------------------
  // Facts about single matches

  /** Whether `typeNameRegex` matches depends only on the characters it matched. */
  lemma TypeNameMatchLocal(s: string, t: string, n: nat)
    requires IsTypeNameMatch(s, n) && n <= |t| && s[..n] == t[..n]
    ensures TypeNameMatch(t) == n
  {
    assert s[..15] == s[..n][..15];
    assert t[..15] == t[..n][..15];
    forall i | 15 <= i < n - 1 ensures IsWordChar(t[i]) {
      assert t[i] == t[..n][i] == s[..n][i] == s[i];
    }
    assert t[n - 1] == t[..n][n - 1];
    assert IsTypeNameMatch(t, n);
  }

  lemma TypeNameMatchAlphabet(s: string, n: nat)
    requires IsTypeNameMatch(s, n)
    ensures forall i :: 0 <= i < n ==> InTypeNameAlphabet(s[i])
    ensures forall i :: 12 <= i < n - 1 ==> IsWordChar(s[i])
  {
    forall i | 0 <= i < 15 ensures InTypeNameAlphabet(s[i]) && (12 <= i ==> IsWordChar(s[i])) {
      assert s[i] == s[..15][i];
    }
  }

  /** Inside a match, `"` stands only at offsets 0, 9, 11 and at the end. */
  lemma TypeNameMatchQuotes(s: string, n: nat, q: nat)
    requires IsTypeNameMatch(s, n) && 0 < q < n && s[q] == '"'
    ensures q == 9 || q == 11 || q == n - 1
  {
    if q < 15 {
      assert s[q] == s[..15][q];
    }
  }

  lemma NoTypeNameMatchWithoutQuote(s: string)
    requires |s| > 0 && s[0] != '"'
    ensures TypeNameMatch(s) == 0
  {
    assert |s| >= 15 ==> s[..15][0] == s[0];
  }

  // ---------------------------------------------------------------------------
  // NoTypeNameLiteral under slicing and concatenation

  lemma ShortHasNoTypeNameLiteral(s: string)
    requires |s| <= 16
    ensures NoTypeNameLiteral(s)
  {
  }

  lemma {:induction false} SliceHasNoTypeNameLiteral(s: string, a: nat, b: nat)
    requires NoTypeNameLiteral(s) && a <= b <= |s|
    ensures NoTypeNameLiteral(s[a..b])
  {
    var u := s[a..b];
    forall i | 0 <= i < |u| ensures TypeNameMatch(u[i..]) == 0 {
      var n := TypeNameMatch(u[i..]);
      if n > 0 {
        assert u[i..][..n] == s[a + i..][..n];
        TypeNameMatchLocal(u[i..], s[a + i..], n);
      }
    }
  }

  /** A prefix without `"` cannot start a match. */
  lemma {:induction false} QuoteFreeThenNoTypeNameLiteral(x: string, y: string)
    requires '"' !in x && NoTypeNameLiteral(y)
    ensures NoTypeNameLiteral(x + y)
  {
    var s := x + y;
    forall i | 0 <= i < |s| ensures TypeNameMatch(s[i..]) == 0 {
      if i < |x| {
        assert s[i..][0] == x[i];
        NoTypeNameMatchWithoutQuote(s[i..]);
      } else {
        assert s[i..] == y[i - |x|..];
      }
    }
  }

  /** A character outside the pattern's alphabet at the seam stops any match from crossing it. */
  lemma {:induction false} SeamHasNoTypeNameLiteral(x: string, y: string)
    requires NoTypeNameLiteral(x) && NoTypeNameLiteral(y)
    requires (|x| > 0 && !InTypeNameAlphabet(x[|x| - 1])) || (|y| > 0 && !InTypeNameAlphabet(y[0]))
    ensures NoTypeNameLiteral(x + y)
  {
    var s := x + y;
    forall i | 0 <= i < |s| ensures TypeNameMatch(s[i..]) == 0 {
      if i < |x| {
        var u := s[i..];
        var n := TypeNameMatch(u);
        assert u[|x| - 1 - i] == x[|x| - 1];
        assert |y| > 0 ==> u[|x| - i] == y[0];
        if n > 0 {
          TypeNameMatchAlphabet(u, n);
          if i + n <= |x| {
            assert u[..n] == x[i..][..n];
            TypeNameMatchLocal(u, x[i..], n);
          }
        }
      } else {
        assert s[i..] == y[i - |x|..];
      }
    }
  }

  /** The three pieces of `a + b + c` are where they were put. */
  lemma Pieces(a: string, b: string, c: string)
    ensures (a + b + c)[..|a|] == a
    ensures (a + b + c)[|a|..|a| + |b|] == b
    ensures (a + b + c)[|a| + |b|..] == c
  {
  }

  // ---------------------------------------------------------------------------
  // The scan of RepairTypeNames

  /** `typeNameRegex` matches at none of the first `p` positions of `t`. */
  predicate NoTypeNameMatchBefore(t: string, p: nat) {
    forall i {:trigger TypeNameMatch(t[i..])} :: 0 <= i < p && i < |t| ==> TypeNameMatch(t[i..]) == 0
  }

  /** Where nothing matches, one character is copied and the scan moves on by one. */
  lemma RepairTypeNamesCopyStep(s: string)
    requires |s| > 0 && TypeNameMatch(s) == 0
    ensures RepairTypeNames(s) == [s[0]] + RepairTypeNames(s[1..])
  {
  }

  /** At a match the replacement is written and the scan resumes after the match. */
  lemma RepairTypeNamesMatchStep(s: string)
    requires TypeNameMatch(s) > 0
    ensures RepairTypeNames(s)
         == TypeNameReplacement + s[12..TypeNameMatch(s) - 1] + RepairTypeNames(s[TypeNameMatch(s)..])
  {
  }

  lemma ConsPrefix(t: string, p: nat, b: string)
    requires 0 < p <= |t|
    ensures [t[0]] + (t[1..][..p - 1] + b) == t[..p] + b
  {
    assert t[..p] == [t[0]] + t[1..][..p - 1];
  }

  lemma NoTypeNameMatchBeforeCons(t: string, p: nat)
    requires |t| > 0 && TypeNameMatch(t) == 0 && NoTypeNameMatchBefore(t[1..], p)
    ensures NoTypeNameMatchBefore(t, p + 1)
  {
    forall i | 0 <= i < p + 1 && i < |t| ensures TypeNameMatch(t[i..]) == 0 {
      if i == 0 {
        assert t[0..] == t;
      } else {
        assert t[1..][i - 1..] == t[i..];
      }
    }
  }

  /** Index of the first `typeNameRegex` match in `t`, or `|t|`. */
  function FirstTypeNameMatch(t: string): (p: nat)
    ensures p <= |t|
    ensures NoTypeNameMatchBefore(t, p)
    ensures p < |t| ==> TypeNameMatch(t[p..]) > 0
    decreases |t|
  {
    if t == [] then 0
    else if TypeNameMatch(t) > 0 then
      assert t[0..] == t;
      0
    else
      var q := FirstTypeNameMatch(t[1..]);
      NoTypeNameMatchBeforeCons(t, q);
      assert q < |t| - 1 ==> t[1..][q..] == t[q + 1..];
      q + 1
  }

  /** Up to the first match the text is copied unchanged. */
  lemma {:induction false} RepairTypeNamesCopiesPrefix(t: string, p: nat)
    requires p <= |t| && NoTypeNameMatchBefore(t, p)
    ensures RepairTypeNames(t) == t[..p] + RepairTypeNames(t[p..])
    decreases p
  {
    if p == 0 {
      assert t[..0] == [] && t[0..] == t;
    } else {
      assert t[0..] == t;
      RepairTypeNamesCopyStep(t);
      var u := t[1..];
      forall i | 0 <= i < p - 1 && i < |u| ensures TypeNameMatch(u[i..]) == 0 {
        assert u[i..] == t[i + 1..];
      }
      RepairTypeNamesCopiesPrefix(u, p - 1);
      assert u[p - 1..] == t[p..];
      ConsPrefix(t, p, RepairTypeNames(t[p..]));
    }
  }

  /** A text matched at its start begins with `"` and is repaired into text beginning `"t`. */
  lemma RepairTypeNamesAtMatch(u: string)
    requires TypeNameMatch(u) > 0
    ensures |u| > 0 && u[0] == '"'
    ensures |RepairTypeNames(u)| >= 2 && RepairTypeNames(u)[0] == '"' && RepairTypeNames(u)[1] == 't'
  {
    assert u[..15][0] == u[0];
    RepairTypeNamesMatchStep(u);
  }

  /** The character before a region the repair rewrote cannot begin a new match:
      the rewritten text starts `"t` or `"r`, never `":` or `"Z`. */
  lemma {:induction false} NoTypeNameMatchAtFront(s: string, r: string, p: nat)
    requires TypeNameMatch(s) == 0
    requires 1 + p <= |s| && 1 + p <= |r| && r[..1 + p] == s[..1 + p]
    requires 1 + p == |s| ==> r == s
    requires 1 + p < |s| ==> s[1 + p] == '"' && 3 + p <= |r| && r[1 + p] == '"' && r[2 + p] != ':' && r[2 + p] != 'Z'
    ensures TypeNameMatch(r) == 0
  {
    var m := TypeNameMatch(r);
    if m > 0 {
      if m <= 1 + p {
        assert r[..m] == r[..1 + p][..m] == s[..1 + p][..m] == s[..m];
        TypeNameMatchLocal(r, s, m);
      } else if 1 + p < |s| {
        TypeNameMatchQuotes(r, m, 1 + p);
        assert r[..15][10] == r[10] && r[..15][12] == r[12];
        if 1 + p == m - 1 {
          assert r[..m] == r[..1 + p] + [r[1 + p]];
          assert s[..m] == s[..1 + p] + [s[1 + p]];
          TypeNameMatchLocal(r, s, m);
        }
      }
    }
  }

  /** The replacement text followed by a captured word: nothing in it can start a match,
      because the only quotes stand before the `.` that ends `"typeName":z`. */
  lemma ReplacementHasNoTypeNameLiteral(word: string, rest: string)
    requires forall i :: 0 <= i < |word| ==> IsWordChar(word[i])
    requires NoTypeNameLiteral(rest)
    ensures NoTypeNameLiteral(TypeNameReplacement + word + rest)
  {
    var tail := EnumPath + word;
    assert '"' !in EnumPath;
    assert '"' !in word by {
      forall i | 0 <= i < |word| ensures word[i] != '"' {
        assert IsWordChar(word[i]);
      }
    }
    QuoteFreeThenNoTypeNameLiteral(tail, rest);
    ShortHasNoTypeNameLiteral(TypeNameEnumHead);
    assert (tail + rest)[0] == '.';
    SeamHasNoTypeNameLiteral(TypeNameEnumHead, tail + rest);
    assert TypeNameReplacement + word + rest == TypeNameEnumHead + (tail + rest);
  }

  /** The match case of `TypeNameRepairComplete`. */
  lemma TypeNameRepairCompleteAtMatch(s: string)
    requires TypeNameMatch(s) > 0
    requires NoTypeNameLiteral(RepairTypeNames(s[TypeNameMatch(s)..]))
    ensures NoTypeNameLiteral(RepairTypeNames(s))
  {
    var n := TypeNameMatch(s);
    TypeNameMatchAlphabet(s, n);
    var word := s[12..n - 1];
    assert forall i :: 0 <= i < |word| ==> IsWordChar(word[i]);
    ReplacementHasNoTypeNameLiteral(word, RepairTypeNames(s[n..]));
    RepairTypeNamesMatchStep(s);
  }

  /** A character copied in front of repaired text never completes a match: what follows it
      is either copied text without a match or the start of a replacement, `"t` or `"r`. */
  lemma CopiedFrontHasNoTypeNameLiteral(s: string, rt: string, tail: string, p: nat)
    requires |s| > 0 && TypeNameMatch(s) == 0
    requires p <= |s| - 1
    requires rt == s[1..][..p] + tail && NoTypeNameLiteral(rt)
    requires p == |s| - 1 ==> tail == []
    requires p < |s| - 1 ==> s[1 + p] == '"' && |tail| >= 2 && tail[0] == '"' && tail[1] != ':' && tail[1] != 'Z'
    ensures NoTypeNameLiteral([s[0]] + rt)
  {
    var r := [s[0]] + rt;
    ConsPrefix(s, 1 + p, tail);
    assert r == s[..1 + p] + tail;
    assert r[..1 + p] == s[..1 + p];
    if p == |s| - 1 {
      assert s[..1 + p] == s;
    }
    NoTypeNameMatchAtFront(s, r, p);
    forall i | 0 <= i < |r| ensures TypeNameMatch(r[i..]) == 0 {
      if i == 0 {
        assert r[0..] == r;
      } else {
        assert r[i..] == rt[i - 1..];
      }
    }
  }

  /** What the repair makes of the text from the first match on. */
  lemma RepairTypeNamesFromFirstMatch(t: string)
    ensures var p := FirstTypeNameMatch(t);
      var tail := RepairTypeNames(t[p..]);
      && (p == |t| ==> tail == [])
      && (p < |t| ==> t[p] == '"' && |tail| >= 2 && tail[0] == '"' && tail[1] == 't')
  {
    var p := FirstTypeNameMatch(t);
    if p < |t| {
      RepairTypeNamesAtMatch(t[p..]);
      assert t[p..][0] == t[p];
    } else {
      assert t[p..] == [];
    }
  }

  /** The copy case of `TypeNameRepairComplete`. */
  lemma TypeNameRepairCompleteAtCopy(s: string)
    requires |s| > 0 && TypeNameMatch(s) == 0
    requires NoTypeNameLiteral(RepairTypeNames(s[1..]))
    ensures NoTypeNameLiteral(RepairTypeNames(s))
  {
    RepairTypeNamesCopyStep(s);
    TypeNameRepairCopiedFront(s);
  }

  lemma TypeNameRepairCopiedFront(s: string)
    requires |s| > 0 && TypeNameMatch(s) == 0
    requires NoTypeNameLiteral(RepairTypeNames(s[1..]))
    ensures NoTypeNameLiteral([s[0]] + RepairTypeNames(s[1..]))
  {
    var t := s[1..];
    var p := FirstTypeNameMatch(t);
    RepairTypeNamesCopiesPrefix(t, p);
    RepairTypeNamesFromFirstMatch(t);
    CopiedFrontHasNoTypeNameLiteral(s, RepairTypeNames(t), RepairTypeNames(t[p..]), p);
  }

  /** The typeName repair leaves no quoted `"typeName":"Zod…"` literal behind, whatever its input. */
  lemma {:induction false} TypeNameRepairComplete(s: string)
    ensures NoTypeNameLiteral(RepairTypeNames(s))
    decreases |s|
  {
    if s != [] {
      var n := TypeNameMatch(s);
      if n > 0 {
        TypeNameRepairComplete(s[n..]);
        TypeNameRepairCompleteAtMatch(s);
      } else {
        TypeNameRepairComplete(s[1..]);
        TypeNameRepairCompleteAtCopy(s);
      }
    }
  }

  /** Text with no match passes through the typeName repair unchanged. */
  lemma TypeNameRepairIdentity(s: string)
    requires NoTypeNameLiteral(s)
    ensures RepairTypeNames(s) == s
  {
    RepairTypeNamesCopiesPrefix(s, |s|);
    assert s[..|s|] == s && s[|s|..] == [];
  }

  /** Repairing twice is repairing once. */
  lemma TypeNameRepairIdempotent(s: string)
    ensures RepairTypeNames(RepairTypeNames(s)) == RepairTypeNames(s)
  {
    TypeNameRepairComplete(s);
    TypeNameRepairIdentity(RepairTypeNames(s));
  }

  /** Text before the first `"` is never rewritten. */
  lemma QuoteFreePrefixRepairTypeNames(u: string, v: string)
    requires '"' !in u
    ensures RepairTypeNames(u + v) == u + RepairTypeNames(v)
  {
    var s := u + v;
    forall i | 0 <= i < |u| && i < |s| ensures TypeNameMatch(s[i..]) == 0 {
      assert s[i..][0] == u[i];
      NoTypeNameMatchWithoutQuote(s[i..]);
    }
    RepairTypeNamesCopiesPrefix(s, |u|);
    assert s[..|u|] == u && s[|u|..] == v;
  }

  /** One `"typeName":"ZodX"` literal becomes the enum member `z.ZodFirstPartyTypeKind.ZodX`,
      its closing quote dropped. */
  lemma TypeNameRepairOne(word: string, rest: string)
    requires |word| > 0 && forall i :: 0 <= i < |word| ==> IsWordChar(word[i])
    ensures RepairTypeNames(TypeNamePrefix + word + "\"" + rest)
         == TypeNameReplacement + "Zod" + word + RepairTypeNames(rest)
  {
    TypeNameMatchOf(word, rest);
    TypeNameRepairOfMatch(word, rest);
    Regroup(TypeNamePrefix, word, "\"", rest);
  }

  lemma TypeNameMatchOf(word: string, rest: string)
    requires |word| > 0 && forall i :: 0 <= i < |word| ==> IsWordChar(word[i])
    ensures TypeNameMatch(TypeNamePrefix + word + ("\"" + rest)) == 16 + |word|
  {
    var after := "\"" + rest;
    var s := TypeNamePrefix + word + after;
    Pieces(TypeNamePrefix, word, after);
    var n := 16 + |word|;
    forall i | 15 <= i < n - 1 ensures IsWordChar(s[i]) {
      assert s[i] == s[15..15 + |word|][i - 15];
    }
    assert s[n - 1] == s[15 + |word|..][0];
    assert IsTypeNameMatch(s, n);
  }

  lemma TypeNameRepairOfMatch(word: string, rest: string)
    requires TypeNameMatch(TypeNamePrefix + word + ("\"" + rest)) == 16 + |word|
    ensures RepairTypeNames(TypeNamePrefix + word + ("\"" + rest))
         == TypeNameReplacement + "Zod" + word + RepairTypeNames(rest)
  {
    var s := TypeNamePrefix + word + ("\"" + rest);
    var n := 16 + |word|;
    RepairTypeNamesMatchStep(s);
    Pieces(TypeNamePrefix, word, "\"" + rest);
    assert TypeNamePrefix[12..] == "Zod";
    assert s[12..n - 1] == TypeNamePrefix[12..] + word;
    assert s[n..] == rest;
  }

  /** A last character other than `"` survives the repair. */
  lemma {:induction false} RepairTypeNamesKeepsLast(s: string)
    requires |s| > 0 && s[|s| - 1] != '"'
    ensures |RepairTypeNames(s)| > 0 && RepairTypeNames(s)[|RepairTypeNames(s)| - 1] == s[|s| - 1]
    decreases |s|
  {
    var n := TypeNameMatch(s);
    if n > 0 {
      var u := s[n..];
      assert u[|u| - 1] == s[|s| - 1];
      RepairTypeNamesKeepsLast(u);
      RepairTypeNamesMatchStep(s);
      LastOfAppend(TypeNameReplacement + s[12..n - 1], RepairTypeNames(u));
    } else if |s| > 1 {
      var u := s[1..];
      assert u[|u| - 1] == s[|s| - 1];
      RepairTypeNamesKeepsLast(u);
      RepairTypeNamesCopyStep(s);
      LastOfAppend([s[0]], RepairTypeNames(u));
    } else {
      RepairTypeNamesCopyStep(s);
    }
  }

  lemma {:induction false} RepairTypeNamesNoNewline(s: string)
    requires '\n' !in s
    ensures '\n' !in RepairTypeNames(s)
    decreases |s|
  {
    if s != [] {
      var n := TypeNameMatch(s);
      if n > 0 {
        RepairTypeNamesNoNewline(s[n..]);
        NoNewlineSlice(s, 12, n - 1);
        NoNewlineInTypeNameEnum(s[12..n - 1], RepairTypeNames(s[n..]));
        RepairTypeNamesMatchStep(s);
      } else {
        RepairTypeNamesNoNewline(s[1..]);
        RepairTypeNamesCopyStep(s);
        NoNewlineAppend3([s[0]], [], RepairTypeNames(s[1..]));
      }
    }
  }

  lemma NoNewlineInTypeNameEnum(word: string, rest: string)
    requires '\n' !in word && '\n' !in rest
    ensures '\n' !in TypeNameReplacement + word + rest
  {
    assert '\n' !in TypeNameReplacement;
  }

  lemma NoNewlineInRegexLiteral(cap: string, rest: string)
    requires '\n' !in cap && '\n' !in rest
    ensures '\n' !in RegexReplacement + cap + "/" + rest
  {
    assert '\n' !in RegexReplacement;
  }

  lemma LastOfAppend(a: string, b: string)
    requires |b| > 0
    ensures (a + b)[|a + b| - 1] == b[|b| - 1]
  {
  }

  lemma NoNewlineAppend3(a: string, b: string, c: string)
    requires '\n' !in a && '\n' !in b && '\n' !in c
    ensures '\n' !in a + b + c
  {
  }

  lemma NoNewlineSlice(s: string, i: nat, j: nat)
    requires '\n' !in s && i <= j <= |s|
    ensures '\n' !in s[i..j]
  {
    forall k | 0 <= k < j - i ensures s[i..j][k] != '\n' {
      assert s[i..j][k] == s[i + k];
    }
  }

  // ---------------------------------------------------------------------------
  // The scan of RepairRegexes

  predicate NoRegexMatchBefore(t: string, p: nat) {
    forall i {:trigger RegexMatch(t[i..])} :: 0 <= i < p && i < |t| ==> RegexMatch(t[i..]) == 0
  }

  lemma RepairRegexesCopyStep(s: string)
    requires |s| > 0 && RegexMatch(s) == 0
    ensures RepairRegexes(s) == [s[0]] + RepairRegexes(s[1..])
  {
  }

  lemma RepairRegexesMatchStep(s: string)
    requires RegexMatch(s) > 0
    ensures RepairRegexes(s)
         == RegexReplacement + s[10..10 + RegexMatch(s)] + "/" + RepairRegexes(s[10 + RegexMatch(s) + 2..])
  {
  }

  lemma NoRegexMatchBeforeCons(t: string, p: nat)
    requires |t| > 0 && RegexMatch(t) == 0 && NoRegexMatchBefore(t[1..], p)
    ensures NoRegexMatchBefore(t, p + 1)
  {
    forall i | 0 <= i < p + 1 && i < |t| ensures RegexMatch(t[i..]) == 0 {
      if i == 0 {
        assert t[0..] == t;
      } else {
        assert t[1..][i - 1..] == t[i..];
      }
    }
  }

  /** Index of the first `stringRegex` match in `t`, or `|t|`. */
  function FirstRegexMatch(t: string): (p: nat)
    ensures p <= |t|
    ensures NoRegexMatchBefore(t, p)
    ensures p < |t| ==> RegexMatch(t[p..]) > 0
    decreases |t|
  {
    if t == [] then 0
    else if RegexMatch(t) > 0 then
      assert t[0..] == t;
      0
    else
      var q := FirstRegexMatch(t[1..]);
      NoRegexMatchBeforeCons(t, q);
      assert q < |t| - 1 ==> t[1..][q..] == t[q + 1..];
      q + 1
  }

  lemma {:induction false} RepairRegexesCopiesPrefix(t: string, p: nat)
    requires p <= |t| && NoRegexMatchBefore(t, p)
    ensures RepairRegexes(t) == t[..p] + RepairRegexes(t[p..])
    decreases p
  {
    if p == 0 {
      assert t[..0] == [] && t[0..] == t;
    } else {
      assert t[0..] == t;
      RepairRegexesCopyStep(t);
      var u := t[1..];
      forall i | 0 <= i < p - 1 && i < |u| ensures RegexMatch(u[i..]) == 0 {
        assert u[i..] == t[i + 1..];
      }
      RepairRegexesCopiesPrefix(u, p - 1);
      assert u[p - 1..] == t[p..];
      ConsPrefix(t, p, RepairRegexes(t[p..]));
    }
  }

  lemma RepairRegexesAtMatch(u: string)
    requires RegexMatch(u) > 0
    ensures |u| > 0 && u[0] == '"'
    ensures |RepairRegexes(u)| >= 2 && RepairRegexes(u)[0] == '"' && RepairRegexes(u)[1] == 'r'
  {
    assert u[..10][0] == u[0];
    RepairRegexesMatchStep(u);
  }

  /** The match case of `RegexRepairKeepsNoTypeNameLiteral`: the replacement, the capture and
      the closing `/` are joined at seams where a `/` stops any match. */
  lemma RegexRepairKeepsAtMatch(s: string)
    requires NoTypeNameLiteral(s) && RegexMatch(s) > 0
    requires NoTypeNameLiteral(RepairRegexes(s[10 + RegexMatch(s) + 2..]))
    ensures NoTypeNameLiteral(RepairRegexes(s))
  {
    var k := RegexMatch(s);
    var cap := s[10..10 + k];
    var rr := RepairRegexes(s[10 + k + 2..]);
    SliceHasNoTypeNameLiteral(s, 10, 10 + k);
    QuoteFreeThenNoTypeNameLiteral("/", rr);
    SeamHasNoTypeNameLiteral(cap, "/" + rr);
    ShortHasNoTypeNameLiteral(RegexReplacement);
    assert RegexReplacement[8] == '/';
    SeamHasNoTypeNameLiteral(RegexReplacement, cap + ("/" + rr));
    RepairRegexesMatchStep(s);
    Regroup(RegexReplacement, cap, "/", rr);
  }

  /** What the regex repair makes of the text from the first match on. */
  lemma RepairRegexesFromFirstMatch(t: string)
    ensures var p := FirstRegexMatch(t);
      var tail := RepairRegexes(t[p..]);
      && (p == |t| ==> tail == [])
      && (p < |t| ==> t[p] == '"' && |tail| >= 2 && tail[0] == '"' && tail[1] == 'r')
  {
    var p := FirstRegexMatch(t);
    if p < |t| {
      RepairRegexesAtMatch(t[p..]);
      assert t[p..][0] == t[p];
    } else {
      assert t[p..] == [];
    }
  }

  /** The copy case of `RegexRepairKeepsNoTypeNameLiteral`. */
  lemma RegexRepairKeepsAtCopy(s: string)
    requires |s| > 0 && TypeNameMatch(s) == 0 && RegexMatch(s) == 0
    requires NoTypeNameLiteral(RepairRegexes(s[1..]))
    ensures NoTypeNameLiteral(RepairRegexes(s))
  {
    RepairRegexesCopyStep(s);
    RegexRepairCopiedFront(s);
  }

  lemma RegexRepairCopiedFront(s: string)
    requires |s| > 0 && TypeNameMatch(s) == 0
    requires NoTypeNameLiteral(RepairRegexes(s[1..]))
    ensures NoTypeNameLiteral([s[0]] + RepairRegexes(s[1..]))
  {
    var t := s[1..];
    var p := FirstRegexMatch(t);
    RepairRegexesCopiesPrefix(t, p);
    RepairRegexesFromFirstMatch(t);
    CopiedFrontHasNoTypeNameLiteral(s, RepairRegexes(t), RepairRegexes(t[p..]), p);
  }

  /** The regex repair never creates a quoted typeName literal, so a leaf keeps the
      typeName repair's guarantee after both repairs. */
  lemma {:induction false} RegexRepairKeepsNoTypeNameLiteral(s: string)
    requires NoTypeNameLiteral(s)
    ensures NoTypeNameLiteral(RepairRegexes(s))
    decreases |s|
  {
    if s != [] {
      var k := RegexMatch(s);
      if k > 0 {
        SliceHasNoTypeNameLiteral(s, 10 + k + 2, |s|);
        assert s[10 + k + 2..|s|] == s[10 + k + 2..];
        RegexRepairKeepsNoTypeNameLiteral(s[10 + k + 2..]);
        RegexRepairKeepsAtMatch(s);
      } else {
        SliceHasNoTypeNameLiteral(s, 1, |s|);
        assert s[1..|s|] == s[1..];
        assert s[0..] == s;
        RegexRepairKeepsNoTypeNameLiteral(s[1..]);
        RegexRepairKeepsAtCopy(s);
      }
    }
  }

  /** Text with no `stringRegex` match passes through the regex repair unchanged. */
  lemma RegexRepairIdentity(s: string)
    requires NoRegexLiteral(s)
    ensures RepairRegexes(s) == s
  {
    RepairRegexesCopiesPrefix(s, |s|);
    assert s[..|s|] == s && s[|s|..] == [];
  }

  lemma QuoteFreePrefixRepairRegexes(u: string, v: string)
    requires '"' !in u
    ensures RepairRegexes(u + v) == u + RepairRegexes(v)
  {
    var s := u + v;
    forall i | 0 <= i < |u| && i < |s| ensures RegexMatch(s[i..]) == 0 {
      assert s[i..][0] == u[i];
      assert |s[i..]| >= 10 ==> s[i..][..10][0] == s[i..][0];
    }
    RepairRegexesCopiesPrefix(s, |u|);
    assert s[..|u|] == u && s[|u|..] == v;
  }

  lemma {:induction false} RepairRegexesKeepsLast(s: string)
    requires |s| > 0 && s[|s| - 1] != '"'
    ensures |RepairRegexes(s)| > 0 && RepairRegexes(s)[|RepairRegexes(s)| - 1] == s[|s| - 1]
    decreases |s|
  {
    var k := RegexMatch(s);
    if k > 0 {
      var u := s[10 + k + 2..];
      assert u[|u| - 1] == s[|s| - 1];
      RepairRegexesKeepsLast(u);
      RepairRegexesMatchStep(s);
      LastOfAppend(RegexReplacement + s[10..10 + k] + "/", RepairRegexes(u));
    } else if |s| > 1 {
      var u := s[1..];
      assert u[|u| - 1] == s[|s| - 1];
      RepairRegexesKeepsLast(u);
      RepairRegexesCopyStep(s);
      LastOfAppend([s[0]], RepairRegexes(u));
    } else {
      RepairRegexesCopyStep(s);
    }
  }

  lemma {:induction false} RepairRegexesNoNewline(s: string)
    requires '\n' !in s
    ensures '\n' !in RepairRegexes(s)
    decreases |s|
  {
    if s != [] {
      var k := RegexMatch(s);
      if k > 0 {
        RepairRegexesNoNewline(s[10 + k + 2..]);
        NoNewlineSlice(s, 10, 10 + k);
        NoNewlineInRegexLiteral(s[10..10 + k], RepairRegexes(s[10 + k + 2..]));
        RepairRegexesMatchStep(s);
      } else {
        RepairRegexesNoNewline(s[1..]);
        RepairRegexesCopyStep(s);
        NoNewlineAppend3([s[0]], [], RepairRegexes(s[1..]));
      }
    }
  }

  /** No line terminator in `s`: `.` matches each of its characters. */
  predicate OnOneLine(s: string) {
    forall i :: 0 <= i < |s| ==> !IsLineTerminator(s[i])
  }

  lemma OnOneLineConcat(a: string, b: string)
    requires OnOneLine(a) && OnOneLine(b)
    ensures OnOneLine(a + b)
  {
    forall i | 0 <= i < |a + b| ensures !IsLineTerminator((a + b)[i]) {
      if i >= |a| {
        assert (a + b)[i] == b[i - |a|];
      }
    }
  }

  lemma {:induction false} LineLengthAfter(a: string, b: string)
    requires OnOneLine(a)
    ensures LineLength(a + b) == |a| + LineLength(b)
    decreases |a|
  {
    if a != [] {
      assert (a + b)[1..] == a[1..] + b;
      assert OnOneLine(a[1..]) by {
        forall i | 0 <= i < |a| - 1 ensures !IsLineTerminator(a[1..][i]) {
          assert a[1..][i] == a[i + 1];
        }
      }
      LineLengthAfter(a[1..], b);
    } else {
      assert a + b == b;
    }
  }

  /** `RegexPrefix + body + close` matches `stringRegex` with a capture of `|body|` characters
      when the pattern can end there. */
  lemma RegexMatchOf(body: string, close: string)
    requires |body| > 0 && OnOneLine(body)
    requires |close| >= 2 && close[0] == '/' && close[1] == '"'
    ensures IsRegexMatch(RegexPrefix + body + close, |body|)
  {
    var s := RegexPrefix + body + close;
    Pieces(RegexPrefix, body, close);
    forall i | 10 <= i < 10 + |body| ensures !IsLineTerminator(s[i]) {
      assert s[i] == s[10..10 + |body|][i - 10];
    }
    assert s[10 + |body|] == s[10 + |body|..][0];
    assert s[10 + |body| + 1] == s[10 + |body|..][1];
  }

  /** A regex value alone on its line: `"regex":"/p/"` becomes the literal `"regex":/p/`. */
  lemma RegexRepairOne(p: string, rest: string)
    requires |p| > 0 && OnOneLine(p)
    requires forall j :: !ClosesAt(p, j)
    requires forall j :: 0 <= j && j + 2 <= LineLength(rest) ==> !ClosesAt(rest, j)
    ensures RepairRegexes(RegexPrefix + p + "/\"" + rest) == RegexReplacement + p + "/" + RepairRegexes(rest)
  {
    RegexMatchAlone(p, rest);
    RegexRepairOfCapture(p, rest);
    Regroup(RegexPrefix, p, "/\"", rest);
  }

  lemma Regroup(a: string, b: string, c: string, d: string)
    ensures a + b + c + d == a + b + (c + d)
    ensures a + b + c + d == a + (b + (c + d))
  {
  }

  /** Once the capture is known, the repair writes it as a literal and scans on after `/"`. */
  lemma RegexRepairOfCapture(cap: string, rest: string)
    requires RegexMatch(RegexPrefix + cap + ("/\"" + rest)) == |cap| > 0
    ensures RepairRegexes(RegexPrefix + cap + ("/\"" + rest)) == RegexReplacement + cap + "/" + RepairRegexes(rest)
  {
    var s := RegexPrefix + cap + ("/\"" + rest);
    RepairRegexesMatchStep(s);
    Pieces(RegexPrefix, cap, "/\"" + rest);
    assert s[10 + |cap| + 2..] == rest;
  }

  /** The capture of a value alone on its line is exactly the value. */
  lemma RegexMatchAlone(p: string, rest: string)
    requires |p| > 0 && OnOneLine(p)
    requires forall j :: !ClosesAt(p, j)
    requires forall j :: 0 <= j && j + 2 <= LineLength(rest) ==> !ClosesAt(rest, j)
    ensures RegexMatch(RegexPrefix + p + ("/\"" + rest)) == |p|
  {
    var close := "/\"" + rest;
    var s := RegexPrefix + p + close;
    RegexMatchOf(p, close);
    Pieces(RegexPrefix, p, close);
    var t := s[10..];
    assert t == p + close;
    NoCloseAfterValue(p, rest);
    assert forall j :: IsRegexMatch(s, j) ==> j + 2 <= LineLength(t) && ClosesAt(t, j);
  }

  /** After a value's own `/"`, no other `/"` ends on its line. */
  lemma NoCloseAfterValue(p: string, rest: string)
    requires OnOneLine(p)
    requires forall j :: 0 <= j && j + 2 <= LineLength(rest) ==> !ClosesAt(rest, j)
    ensures forall j :: |p| < j && j + 2 <= LineLength(p + ("/\"" + rest)) ==> !ClosesAt(p + ("/\"" + rest), j)
  {
    var close := "/\"" + rest;
    var t := p + close;
    assert OnOneLine("/\"");
    LineLengthAfter(p, close);
    LineLengthAfter("/\"", rest);
    assert LineLength(t) == |p| + 2 + LineLength(rest);
    forall j | |p| < j && j + 2 <= LineLength(t) ensures !ClosesAt(t, j) {
      if j == |p| + 1 {
        assert t[j] == close[1];
      } else {
        assert t[j] == close[j - |p|] == rest[j - |p| - 2];
        assert t[j + 1] == close[j + 1 - |p|] == rest[j - |p| - 1];
        assert !ClosesAt(rest, j - |p| - 2);
      }
    }
  }

  /** With `.+` greedy, the capture runs to the last `/"` of the line, whatever lies between. */
  lemma RegexRepairToLastClose(body: string)
    requires |body| > 0 && OnOneLine(body)
    ensures RepairRegexes(RegexPrefix + body + "/\"") == RegexReplacement + body + "/"
  {
    var s := RegexPrefix + body + "/\"";
    RegexMatchOf(body, "/\"");
    assert RegexMatch(s) == |body|;
    assert s == RegexPrefix + body + ("/\"" + []);
    RegexRepairOfCapture(body, []);
    assert RegexReplacement + body + "/" + RepairRegexes([]) == RegexReplacement + body + "/";
  }

  /** Two regex values on one line (two `.regex()` checks of one string schema, say) are taken
      as a single capture: the first value's closing quote and the second's opening quote
      survive, and neither value becomes a regular-expression literal of its own. */
  lemma RegexRepairMergesValuesOnOneLine(p1: string, between: string, p2: string)
    requires |p1| > 0 && OnOneLine(p1) && OnOneLine(between) && OnOneLine(p2)
    ensures var body := p1 + "/\"" + between + RegexPrefix + p2;
      RepairRegexes(RegexPrefix + body + "/\"") == RegexReplacement + body + "/"
  {
    assert OnOneLine("/\"");
    assert OnOneLine(RegexPrefix);
    OnOneLineConcat(p1, "/\"");
    OnOneLineConcat(p1 + "/\"", between);
    OnOneLineConcat(p1 + "/\"" + between, RegexPrefix);
    OnOneLineConcat(p1 + "/\"" + between + RegexPrefix, p2);
    RegexRepairToLastClose(p1 + "/\"" + between + RegexPrefix + p2);
  }

  /** The serialized pattern `"/^[a-z]+$/"` becomes the literal `/^[a-z]+$/`. */
  lemma RegexRepairExample(pattern: string)
    requires pattern == "^[a-z]+$"
    ensures RepairRegexes(RegexPrefix + pattern + "/\"") == RegexReplacement + pattern + "/"
  {
    RegexRepairToLastClose(pattern);
  }
}
