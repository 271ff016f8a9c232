/** ASCII models of the string operations the browser code relies on:
    `toLowerCase`, `trim`, `includes` and `Array.prototype.join`. */
module Text {

  /** The white-space characters `trim` removes, restricted to ASCII. */
  predicate IsSpace(c: char) {
    c == ' ' || c == '\t' || c == '\n' || c == '\r' || c == '\U{0B}' || c == '\U{0C}'
  }

  predicate AllSpace(s: string) {
    forall i | 0 <= i < |s| :: IsSpace(s[i])
  }

  predicate IsUpper(c: char) {
    'A' <= c <= 'Z'
  }

  /** ASCII case folding of one character. */
  function LowerChar(c: char): (d: char)
    ensures !IsUpper(d)
    ensures IsSpace(c) <==> IsSpace(d)
    ensures !IsUpper(c) ==> d == c
  {
    if IsUpper(c) then (c as int + 32) as char else c
  }

  /** `s.toLowerCase()`: folds every upper-case letter, leaves all else alone. */
  function ToLower(s: string): (r: string)
    ensures |r| == |s|
    ensures forall i | 0 <= i < |r| :: !IsUpper(r[i])
    ensures forall i | 0 <= i < |s| :: r[i] == LowerChar(s[i])
  {
    seq(|s|, i requires 0 <= i < |s| => LowerChar(s[i]))
  }

  lemma ToLowerIdempotent(s: string)
    ensures ToLower(ToLower(s)) == ToLower(s)
  {
  }

  /** Folding commutes with taking a slice. */
  lemma ToLowerSlice(s: string, i: nat, j: nat)
    requires i <= j <= |s|
    ensures ToLower(s)[i..j] == ToLower(s[i..j])
  {
  }

  lemma ToLowerKeepsSpaces(s: string)
    ensures AllSpace(s) <==> AllSpace(ToLower(s))
  {
    assert forall i | 0 <= i < |s| :: IsSpace(s[i]) <==> IsSpace(ToLower(s)[i]);
  }

  /** Number of white-space characters at the front of `s`. */
  function LeadingSpaces(s: string): (n: nat)
    ensures n <= |s|
    ensures AllSpace(s[..n])
    ensures n < |s| ==> !IsSpace(s[n])
  {
    if |s| == 0 || !IsSpace(s[0]) then 0
    else
      var n := 1 + LeadingSpaces(s[1..]);
      assert s[..n] == [s[0]] + s[1..][..n - 1];
      n
  }

  /** Number of white-space characters at the end of `s`. */
  function TrailingSpaces(s: string): (n: nat)
    ensures n <= |s|
    ensures AllSpace(s[|s| - n..])
    ensures n < |s| ==> !IsSpace(s[|s| - 1 - n])
  {
    if |s| == 0 || !IsSpace(s[|s| - 1]) then 0
    else
      var n := 1 + TrailingSpaces(s[..|s| - 1]);
      assert s[|s| - n..] == s[..|s| - 1][|s| - n..] + [s[|s| - 1]];
      n
  }

  /** `s.trim()`: the part of `s` between its leading and trailing white space. */
  function Trim(s: string): (r: string)
    ensures exists i, j | 0 <= i <= j <= |s| :: r == s[i..j] && AllSpace(s[..i]) && AllSpace(s[j..])
    ensures r == [] || (!IsSpace(r[0]) && !IsSpace(r[|r| - 1]))
  {
    var lead := LeadingSpaces(s);
    if lead == |s| then
      assert s[|s|..] == [];
      s[|s|..]
    else
      var trail := TrailingSpaces(s);
      assert lead < |s| - trail;
      s[lead..|s| - trail]
  }

  /** Trimming leaves nothing exactly when the string is all white space. */
  lemma TrimEmptyIffBlank(s: string)
    ensures Trim(s) == [] <==> AllSpace(s)
  {
    var r := Trim(s);
    var i, j :| 0 <= i <= j <= |s| && r == s[i..j] && AllSpace(s[..i]) && AllSpace(s[j..]);
    if r == [] {
      forall k | 0 <= k < |s|
        ensures IsSpace(s[k])
      {
        if k < i {
          assert s[..i][k] == s[k];
        } else {
          assert s[j..][k - j] == s[k];
        }
      }
    }
  }

  /** Lower-casing keeps a white-space prefix white space. */
  lemma LowerSpacePrefix(s: string, i: nat)
    requires i <= |s| && AllSpace(ToLower(s)[..i])
    ensures AllSpace(s[..i])
  {
    assert forall k | 0 <= k < i :: ToLower(s)[..i][k] == LowerChar(s[..i][k]);
  }

  /** Lower-casing keeps a white-space suffix white space. */
  lemma LowerSpaceSuffix(s: string, j: nat)
    requires j <= |s| && AllSpace(ToLower(s)[j..])
    ensures AllSpace(s[j..])
  {
    assert forall k | 0 <= k < |s| - j :: ToLower(s)[j..][k] == LowerChar(s[j..][k]);
  }

  /** Trimming a lower-cased string cuts exactly the white space of the original, and
      leaves no upper-case letter. */
  lemma TrimOfLower(s: string)
    ensures exists i, j | 0 <= i <= j <= |s| ::
      Trim(ToLower(s)) == ToLower(s)[i..j] && AllSpace(s[..i]) && AllSpace(s[j..])
    ensures forall k | 0 <= k < |Trim(ToLower(s))| :: !IsUpper(Trim(ToLower(s))[k])
  {
    var lower := ToLower(s);
    var term := Trim(lower);
    var i, j :| 0 <= i <= j <= |lower| && term == lower[i..j] && AllSpace(lower[..i]) && AllSpace(lower[j..]);
    LowerSpacePrefix(s, i);
    LowerSpaceSuffix(s, j);
    assert forall k | 0 <= k < |term| :: term[k] == lower[i + k];
  }

  /** `sub` sits in `s` starting at position `i`. */
  ghost predicate OccursAt(s: string, sub: string, i: int) {
    0 <= i && i + |sub| <= |s| && s[i..i + |sub|] == sub
  }

  predicate IsPrefix(p: string, s: string) {
    |p| <= |s| && s[..|p|] == p
  }

  /** `s.includes(sub)`: every string includes the empty string, and nothing includes a
      string longer than itself. */
  predicate Contains(s: string, sub: string)
    ensures sub == [] ==> Contains(s, sub)
    ensures Contains(s, sub) ==> |sub| <= |s|
    decreases |s|
  {
    IsPrefix(sub, s) || (|s| > 0 && Contains(s[1..], sub))
  }

  /** `Contains` agrees with the positional definition of a substring, in both directions. */
  lemma {:induction false} ContainsIffOccurs(s: string, sub: string)
    ensures Contains(s, sub) <==> exists i :: OccursAt(s, sub, i)
    decreases |s|
  {
    if Contains(s, sub) {
      if IsPrefix(sub, s) {
        assert OccursAt(s, sub, 0);
      } else {
        ContainsIffOccurs(s[1..], sub);
        var i :| OccursAt(s[1..], sub, i);
        assert s[1..][i..i + |sub|] == s[i + 1..i + 1 + |sub|];
        assert OccursAt(s, sub, i + 1);
      }
    }
    if exists i :: OccursAt(s, sub, i) {
      var i :| OccursAt(s, sub, i);
      if i == 0 {
        assert IsPrefix(sub, s);
      } else {
        assert s[1..][i - 1..i - 1 + |sub|] == s[i..i + |sub|];
        assert OccursAt(s[1..], sub, i - 1);
        ContainsIffOccurs(s[1..], sub);
      }
    }
  }

  /** Every string includes the empty string. */
  lemma ContainsEmpty(s: string)
    ensures Contains(s, "")
  {
    assert IsPrefix("", s);
  }

  /** An occurrence of `b` inside an occurrence of `c` inside `a` is an occurrence of `b` in `a`. */
  lemma OccursTransitive(a: string, c: string, b: string, i: int, j: int)
    requires OccursAt(a, c, i) && OccursAt(c, b, j)
    ensures OccursAt(a, b, i + j)
  {
    forall k | 0 <= k < |b|
      ensures a[i + j + k] == b[k]
    {
      assert a[i..i + |c|][j + k] == c[j + k];
      assert c[j..j + |b|][k] == b[k];
    }
  }

  /** Case folding preserves an occurrence. */
  lemma OccursLower(s: string, sub: string, i: int)
    requires OccursAt(s, sub, i)
    ensures OccursAt(ToLower(s), ToLower(sub), i)
  {
    ToLowerSlice(s, i, i + |sub|);
  }

  function TotalLength(parts: seq<string>): nat {
    if |parts| == 0 then 0 else |parts[0]| + TotalLength(parts[1..])
  }

  /** `parts.join(sep)`: all the parts with one separator between each neighbouring pair. */
  function Join(parts: seq<string>, sep: string): (r: string)
    ensures |parts| == 0 ==> r == []
    ensures |parts| > 0 ==> |r| == TotalLength(parts) + (|parts| - 1) * |sep|
    decreases |parts|
  {
    if |parts| == 0 then ""
    else if |parts| == 1 then parts[0]
    else parts[0] + sep + Join(parts[1..], sep)
  }

  /** `join` read left to right: appending a part adds one separator and then that part.
      With the empty and one-part cases this fixes the joined string, parts in order. */
  lemma {:induction false} JoinAppend(parts: seq<string>, p: string, sep: string)
    requires |parts| > 0
    ensures Join(parts + [p], sep) == Join(parts, sep) + sep + p
    decreases |parts|
  {
    if |parts| > 1 {
      JoinAppend(parts[1..], p, sep);
      assert (parts + [p])[1..] == parts[1..] + [p];
    }
  }

  /** Every part occurs in the joined string. */
  lemma {:induction false} JoinContainsPart(parts: seq<string>, sep: string, k: nat)
    requires k < |parts|
    ensures exists i :: OccursAt(Join(parts, sep), parts[k], i)
    decreases |parts|
  {
    var r := Join(parts, sep);
    if |parts| == 1 {
      assert OccursAt(r, parts[k], 0);
    } else if k == 0 {
      assert r[..|parts[0]|] == parts[0];
      assert OccursAt(r, parts[k], 0);
    } else {
      JoinContainsPart(parts[1..], sep, k - 1);
      var tail := Join(parts[1..], sep);
      var i :| OccursAt(tail, parts[1..][k - 1], i);
      var off := |parts[0] + sep|;
      assert r == (parts[0] + sep) + tail;
      assert r[off + i..off + i + |parts[k]|] == tail[i..i + |parts[k]|];
      assert OccursAt(r, parts[k], off + i);
    }
  }
}
