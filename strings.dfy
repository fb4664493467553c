/** The string primitives that content.js takes from JavaScript:
    `includes`, the single-digit capture of `/heading(\d)/`, `trim`,
    `toLowerCase`, the zero-width-character `replace`, and number-to-string
    conversion inside template literals. */
module Strings {

  import opened Wrappers

  /** `p` is a prefix of `s`. */
  predicate IsPrefix(p: string, s: string) {
    |p| <= |s| && s[..|p|] == p
  }

  /** `sub` occurs in `s` starting at position `i`: the reference definition
      of a substring match. */
  ghost predicate OccursAt(s: string, sub: string, i: int) {
    0 <= i && i + |sub| <= |s| && s[i..i + |sub|] == sub
  }

  /** JavaScript's `s.includes(sub)`, computed by scanning start positions. */
  predicate Contains(s: string, sub: string)
    decreases |s|
  {
    IsPrefix(sub, s) || (|s| > 0 && Contains(s[1..], sub))
  }

  /** A successful scan has found an occurrence. */
  lemma {:induction false} ContainsWitness(s: string, sub: string)
    requires Contains(s, sub)
    ensures exists i :: OccursAt(s, sub, i)
    decreases |s|
  {
    if IsPrefix(sub, s) {
      assert OccursAt(s, sub, 0);
    } else {
      ContainsWitness(s[1..], sub);
      var i :| OccursAt(s[1..], sub, i);
      assert s[1..][i..i + |sub|] == s[i + 1..i + 1 + |sub|];
      assert OccursAt(s, sub, i + 1);
    }
  }

  /** Every occurrence is found by the scan. */
  lemma {:induction false} OccursContains(s: string, sub: string, i: int)
    requires OccursAt(s, sub, i)
    ensures Contains(s, sub)
    decreases i
  {
    if i == 0 {
      assert IsPrefix(sub, s);
    } else {
      assert s[1..][i - 1..i - 1 + |sub|] == s[i..i + |sub|];
      OccursContains(s[1..], sub, i - 1);
    }
  }

  /** The scan agrees with the reference definition, in both directions. */
  lemma ContainsIff(s: string, sub: string)
    ensures Contains(s, sub) <==> exists i :: OccursAt(s, sub, i)
  {
    if Contains(s, sub) {
      ContainsWitness(s, sub);
    }
    forall i | OccursAt(s, sub, i) ensures Contains(s, sub) {
      OccursContains(s, sub, i);
    }
  }

  /** Whatever contains `sub`, embedded in a longer string, still contains it. */
  lemma ContainsInfix(a: string, t: string, b: string, sub: string)
    requires Contains(t, sub)
    ensures Contains(a + t + b, sub)
  {
    ContainsIff(t, sub);
    var i :| OccursAt(t, sub, i);
    assert (a + t + b)[|a| + i..|a| + i + |sub|] == t[i..i + |sub|];
    assert OccursAt(a + t + b, sub, |a| + i);
    ContainsIff(a + t + b, sub);
  }

  /** Containment is transitive. */
  lemma ContainsTrans(a: string, b: string, c: string)
    requires Contains(a, b) && Contains(b, c)
    ensures Contains(a, c)
  {
    ContainsWitness(a, b);
    ContainsWitness(b, c);
    var i :| OccursAt(a, b, i);
    var j :| OccursAt(b, c, j);
    forall k | 0 <= k < |c| ensures a[i + j + k] == c[k] {
      assert a[i + j + k] == a[i..i + |b|][j + k] == b[j + k];
      assert b[j + k] == b[j..j + |c|][k];
    }
    assert a[i + j..i + j + |c|] == c;
    OccursContains(a, c, i + j);
  }

  /** What the left part of a concatenation contains, the whole contains. */
  lemma ContainsLeft(a: string, b: string, sub: string)
    requires Contains(a, sub)
    ensures Contains(a + b, sub)
  {
    ContainsWitness(a, sub);
    var i :| OccursAt(a, sub, i);
    assert (a + b)[i..i + |sub|] == a[i..i + |sub|];
    OccursContains(a + b, sub, i);
  }

  /** What the right part of a concatenation contains, the whole contains. */
  lemma ContainsRight(a: string, b: string, sub: string)
    requires Contains(b, sub)
    ensures Contains(a + b, sub)
  {
    ContainsWitness(b, sub);
    var i :| OccursAt(b, sub, i);
    assert (a + b)[|a| + i..|a| + i + |sub|] == b[i..i + |sub|];
    OccursContains(a + b, sub, |a| + i);
  }

  /** Every string contains itself. */
  lemma ContainsSelf(s: string)
    ensures Contains(s, s)
  {
    assert IsPrefix(s, s);
  }

  // ---------------------------------------------------------------------
  // Digits

  predicate IsDigit(c: char) {
    '0' <= c <= '9'
  }

  function DigitValue(c: char): (d: nat)
    requires IsDigit(c)
    ensures d <= 9
  {
    (c as int) - ('0' as int)
  }

  /** A decimal digit stands right after an occurrence of `pat` at `i`, so
      that the regular expression `pat(\d)` matches there. */
  ghost predicate DigitAfterAt(s: string, pat: string, i: int) {
    OccursAt(s, pat, i) && i + |pat| < |s| && IsDigit(s[i + |pat|])
  }

  /** The captured digit of the leftmost match of `pat(\d)` in `s`
      (`s.match(/pat(\d)/)[1]`), as a number; `None` when nothing matches. */
  function FirstDigitAfter(s: string, pat: string): (r: Option<nat>)
    ensures r.Some? ==> r.value <= 9
    decreases |s|
  {
    if IsPrefix(pat, s) && |pat| < |s| && IsDigit(s[|pat|]) then
      Some(DigitValue(s[|pat|]))
    else if |s| == 0 then
      None
    else
      FirstDigitAfter(s[1..], pat)
  }

  /** Dropping the first character moves every match one place left. */
  lemma DigitAfterShift(s: string, pat: string, i: int)
    requires 0 < i && |s| > 0
    ensures DigitAfterAt(s, pat, i) <==> DigitAfterAt(s[1..], pat, i - 1)
  {
    if i + |pat| <= |s| {
      assert s[1..][i - 1..i - 1 + |pat|] == s[i..i + |pat|];
    }
  }

  /** `FirstDigitAfter` finds exactly the leftmost match of `pat(\d)`, and
      finds nothing only when there is no match at all. */
  lemma {:induction false} FirstDigitAfterSpec(s: string, pat: string)
    ensures FirstDigitAfter(s, pat).None? <==> forall i :: !DigitAfterAt(s, pat, i)
    ensures FirstDigitAfter(s, pat).Some? ==>
      exists i :: DigitAfterAt(s, pat, i)
        && FirstDigitAfter(s, pat).value == DigitValue(s[i + |pat|])
        && forall j :: 0 <= j < i ==> !DigitAfterAt(s, pat, j)
    decreases |s|
  {
    if IsPrefix(pat, s) && |pat| < |s| && IsDigit(s[|pat|]) {
      assert DigitAfterAt(s, pat, 0);
    } else if |s| == 0 {
      forall i ensures !DigitAfterAt(s, pat, i) {
      }
    } else {
      assert !DigitAfterAt(s, pat, 0);
      FirstDigitAfterSpec(s[1..], pat);
      forall i | 0 < i ensures DigitAfterAt(s, pat, i) <==> DigitAfterAt(s[1..], pat, i - 1) {
        DigitAfterShift(s, pat, i);
      }
      if FirstDigitAfter(s[1..], pat).Some? {
        var i :| DigitAfterAt(s[1..], pat, i)
          && FirstDigitAfter(s[1..], pat).value == DigitValue(s[1..][i + |pat|])
          && forall j :: 0 <= j < i ==> !DigitAfterAt(s[1..], pat, j);
        assert DigitAfterAt(s, pat, i + 1);
        forall j | 0 <= j < i + 1 ensures !DigitAfterAt(s, pat, j) {
          if j > 0 {
            assert !DigitAfterAt(s[1..], pat, j - 1);
          }
        }
      } else {
        forall i ensures !DigitAfterAt(s, pat, i) {
          if i > 0 {
            assert !DigitAfterAt(s[1..], pat, i - 1);
          }
        }
      }
    }
  }

  /** The decimal digit character of `d`. */
  function DigitChar(d: nat): (c: char)
    requires d <= 9
    ensures IsDigit(c) && DigitValue(c) == d
  {
    ((d + '0' as int) as char)
  }

  /** The decimal numeral of `n`, as a template literal prints a number. */
  function NatToString(n: nat): (r: string)
    ensures |r| >= 1 && forall k :: 0 <= k < |r| ==> IsDigit(r[k])
    ensures n < 10 ==> r == [DigitChar(n)]
  {
    if n < 10 then [DigitChar(n)] else NatToString(n / 10) + [DigitChar(n % 10)]
  }

  // ---------------------------------------------------------------------
  // Case and whitespace

  /** The value of a string of decimal digits, most significant first. */
  function DecimalValue(s: string): nat
    requires forall k :: 0 <= k < |s| ==> IsDigit(s[k])
  {
    if s == [] then 0 else 10 * DecimalValue(s[..|s| - 1]) + DigitValue(s[|s| - 1])
  }

  /** `NatToString` writes `n` in decimal without leading zeros: reading
      its digits back gives `n`. */
  lemma {:induction false} NatToStringValue(n: nat)
    ensures DecimalValue(NatToString(n)) == n
    ensures |NatToString(n)| > 1 ==> NatToString(n)[0] != '0'
    decreases n
  {
    if n >= 10 {
      var p := NatToString(n / 10);
      var r := NatToString(n);
      NatToStringValue(n / 10);
      assert r == p + [DigitChar(n % 10)];
      assert r[..|r| - 1] == p;
      assert r[0] == p[0];
      if n / 10 >= 10 {
        assert |p| > 1;
      }
    }
  }

  /** `toLowerCase` on the ASCII letters. */
  function LowerChar(c: char): char {
    if 'A' <= c <= 'Z' then ((c as int) + 32) as char else c
  }

  function ToLower(s: string): (r: string)
    ensures |r| == |s| && forall k :: 0 <= k < |s| ==> r[k] == LowerChar(s[k])
  {
    if s == [] then [] else [LowerChar(s[0])] + ToLower(s[1..])
  }

  /** Lowering twice changes nothing more. */
  lemma ToLowerIdempotent(s: string)
    ensures ToLower(ToLower(s)) == ToLower(s)
  {
    var t := ToLower(s);
    assert forall k :: 0 <= k < |t| ==> ToLower(t)[k] == LowerChar(LowerChar(s[k])) == t[k];
  }

  /** The characters that JavaScript's `\s` and `String.prototype.trim`
      treat as white space (WhiteSpace and LineTerminator). */
  predicate IsJsSpace(c: char) {
    c == '\t' || c == '\n' || c == '\U{000B}' || c == '\U{000C}' || c == '\r'
    || c == ' ' || c == '\U{00A0}' || c == '\U{1680}'
    || ('\U{2000}' <= c <= '\U{200A}')
    || c == '\U{2028}' || c == '\U{2029}' || c == '\U{202F}' || c == '\U{205F}'
    || c == '\U{3000}' || c == '\U{FEFF}'
  }

  /** Removes the leading white space. */
  function TrimStart(s: string): (r: string)
    ensures |r| <= |s| && r == s[|s| - |r|..]
    ensures r == [] || !IsJsSpace(r[0])
    ensures forall k :: 0 <= k < |s| - |r| ==> IsJsSpace(s[k])
  {
    if |s| > 0 && IsJsSpace(s[0]) then
      var r := TrimStart(s[1..]);
      SuffixOfDrop(s, 1, r);
      LeadingSpaceStep(s, |s| - |r|);
      r
    else s
  }

  /** A suffix of `s[n..]` is a suffix of `s`. */
  lemma SuffixOfDrop(s: string, n: nat, r: string)
    requires n <= |s| && |r| <= |s| - n && r == s[n..][|s[n..]| - |r|..]
    ensures r == s[|s| - |r|..]
  {
    assert s[n..][|s[n..]| - |r|..] == s[|s| - |r|..];
  }

  /** White space before position `m - 1` of `s[1..]`, after a white-space
      first character, is white space before position `m` of `s`. */
  lemma LeadingSpaceStep(s: string, m: nat)
    requires 0 < m <= |s| && IsJsSpace(s[0])
    requires forall k :: 0 <= k < m - 1 ==> IsJsSpace(s[1..][k])
    ensures forall k :: 0 <= k < m ==> IsJsSpace(s[k])
  {
    forall k | 0 < k < m ensures IsJsSpace(s[k]) {
      assert s[k] == s[1..][k - 1];
    }
  }

  /** Removes the trailing white space. */
  function TrimEnd(s: string): (r: string)
    ensures |r| <= |s| && r == s[..|r|]
    ensures r == [] || !IsJsSpace(r[|r| - 1])
    ensures forall k :: |r| <= k < |s| ==> IsJsSpace(s[k])
  {
    if |s| > 0 && IsJsSpace(s[|s| - 1]) then
      var r := TrimEnd(s[..|s| - 1]);
      PrefixOfTake(s, |s| - 1, r);
      r
    else s
  }

  /** A prefix of `s[..n]` is a prefix of `s`. */
  lemma PrefixOfTake(s: string, n: nat, r: string)
    requires n <= |s| && |r| <= n && r == s[..n][..|r|]
    ensures r == s[..|r|]
  {
    assert s[..n][..|r|] == s[..|r|];
  }

  /** JavaScript's `trim()`. */
  function Trim(s: string): string {
    TrimEnd(TrimStart(s))
  }

  /** Neither the first nor the last character is white space. */
  predicate NoEdgeSpace(s: string) {
    s == [] || (!IsJsSpace(s[0]) && !IsJsSpace(s[|s| - 1]))
  }

  // ---------------------------------------------------------------------
  // Zero-width characters

  /** The characters `/[\u200B\u200C\u200D\uFEFF]/g` removes from text runs. */
  predicate IsZeroWidth(c: char) {
    c == '\U{200B}' || c == '\U{200C}' || c == '\U{200D}' || c == '\U{FEFF}'
  }

  predicate NoZeroWidth(s: string) {
    forall k :: 0 <= k < |s| ==> !IsZeroWidth(s[k])
  }

  /** `s.replace(/[\u200B\u200C\u200D\uFEFF]/g, "")`: the characters of `s`
      in order, without the zero-width ones. */
  function StripZeroWidth(s: string): (r: string)
    ensures NoZeroWidth(r)
    ensures |r| <= |s|
    ensures NoZeroWidth(s) ==> r == s
    ensures r == [] <==> forall k :: 0 <= k < |s| ==> IsZeroWidth(s[k])
  {
    if s == [] then []
    else if IsZeroWidth(s[0]) then StripZeroWidth(s[1..])
    else [s[0]] + StripZeroWidth(s[1..])
  }

  /** Removal works character by character: it distributes over
      concatenation, drops a zero-width character and keeps any other. */
  lemma {:induction false} StripZeroWidthConcat(a: string, b: string)
    ensures StripZeroWidth(a + b) == StripZeroWidth(a) + StripZeroWidth(b)
    decreases |a|
  {
    if a == [] {
      assert a + b == b;
    } else {
      assert (a + b)[0] == a[0];
      assert (a + b)[1..] == a[1..] + b;
      StripZeroWidthConcat(a[1..], b);
    }
  }

  lemma StripZeroWidthChar(c: char)
    ensures IsZeroWidth(c) ==> StripZeroWidth([c]) == []
    ensures !IsZeroWidth(c) ==> StripZeroWidth([c]) == [c]
  {
  }

  /** A concatenation of zero-width-free strings is zero-width free. */
  lemma NoZeroWidthConcat(a: string, b: string)
    requires NoZeroWidth(a) && NoZeroWidth(b)
    ensures NoZeroWidth(a + b)
  {
    forall k | 0 <= k < |a + b| ensures !IsZeroWidth((a + b)[k]) {
      if k < |a| { assert (a + b)[k] == a[k]; } else { assert (a + b)[k] == b[k - |a|]; }
    }
  }

  // ---------------------------------------------------------------------
  // Joining

  /** The concatenation `parts.join("")`. */
  function Join(parts: seq<string>): string {
    if parts == [] then "" else Join(parts[..|parts| - 1]) + parts[|parts| - 1]
  }

  lemma JoinAppend(parts: seq<string>, x: string)
    ensures Join(parts + [x]) == Join(parts) + x
  {
    assert (parts + [x])[..|parts|] == parts;
  }

  lemma JoinCons(x: string, parts: seq<string>)
    ensures Join([x] + parts) == x + Join(parts)
  {
    JoinConcat([x], parts);
    assert [x][..0] == [];
  }

  /** Joining one more part of a list appends that part. */
  lemma JoinPrefixStep(parts: seq<string>, i: nat)
    requires i < |parts|
    ensures Join(parts[..i + 1]) == Join(parts[..i]) + parts[i]
  {
    assert parts[..i + 1][..i] == parts[..i];
  }

  lemma ConcatAssoc<T>(a: seq<T>, b: seq<T>, c: seq<T>)
    ensures a + b + c == a + (b + c)
  {
  }

  /** Joining distributes over concatenation of the parts. */
  lemma {:induction false} JoinConcat(ps: seq<string>, qs: seq<string>)
    ensures Join(ps + qs) == Join(ps) + Join(qs)
    decreases |qs|
  {
    if qs == [] {
      assert ps + qs == ps;
    } else {
      var qs' := qs[..|qs| - 1];
      assert (ps + qs)[..|ps + qs| - 1] == ps + qs';
      assert (ps + qs)[|ps + qs| - 1] == qs[|qs| - 1];
      JoinConcat(ps, qs');
    }
  }

  /** Part `i` sits between the parts before it and the parts after it. */
  lemma {:induction false} JoinSplit(parts: seq<string>, i: nat)
    requires i < |parts|
    ensures Join(parts) == Join(parts[..i]) + parts[i] + Join(parts[i + 1..])
    decreases |parts|
  {
    var n := |parts|;
    var init := parts[..n - 1];
    if i == n - 1 {
      assert init == parts[..i];
      assert parts[i + 1..] == [];
    } else {
      JoinSplit(init, i);
      assert init[..i] == parts[..i];
      assert init[i] == parts[i];
      var post := parts[i + 1..];
      assert init[i + 1..] == post[..|post| - 1];
      assert post[|post| - 1] == parts[n - 1];
      assert Join(post) == Join(init[i + 1..]) + parts[n - 1];
    }
  }

  /** Parts `j < k` appear in that order, with the parts between them in
      between. */
  lemma JoinSplit2(parts: seq<string>, j: nat, k: nat)
    requires j < k < |parts|
    ensures Join(parts) == Join(parts[..j]) + parts[j] + Join(parts[j + 1..k]) + parts[k] + Join(parts[k + 1..])
  {
    JoinSplit(parts, k);
    JoinSplit(parts[..k], j);
    assert parts[..k][..j] == parts[..j];
    assert parts[..k][j + 1..] == parts[j + 1..k];
  }
}
