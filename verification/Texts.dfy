/**
 Characters and texts as the standard library sees them: ASCII case, white space,
 and texts inside texts.
 */
module Texts {

  predicate IsUpper(c: char) { 'A' <= c <= 'Z' }
  predicate IsLower(c: char) { 'a' <= c <= 'z' }
  predicate IsDigit(c: char) { '0' <= c <= '9' }

  function ToLower(c: char): char {
    if IsUpper(c) then 'a' + (c - 'A') else c
  }

  function Lower(s: string): (r: string)
    ensures |r| == |s| && forall i :: 0 <= i < |s| ==> r[i] == ToLower(s[i])
  {
    seq(|s|, i requires 0 <= i < |s| => ToLower(s[i]))
  }

  predicate IsSpace(c: char) {
    || '\t' <= c <= '\r' || c == ' ' || c == '\U{85}' || c == '\U{A0}' || c == '\U{1680}'
    || '\U{2000}' <= c <= '\U{200A}' || c == '\U{2028}' || c == '\U{2029}' || c == '\U{202F}'
    || c == '\U{205F}' || c == '\U{3000}'
  }

  function Trim(s: string): string
    decreases |s|
  {
    if s == "" then ""
    else if IsSpace(s[0]) then Trim(s[1..])
    else if IsSpace(s[|s| - 1]) then Trim(s[..|s| - 1])
    else s
  }

  lemma {:induction false} TrimTwice(s: string)
    ensures Trim(Trim(s)) == Trim(s)
    decreases |s|
  {
    hide IsSpace;
    if s != "" {
      if IsSpace(s[0]) {
        TrimTwice(s[1..]);
      } else if IsSpace(s[|s| - 1]) {
        TrimTwice(s[..|s| - 1]);
      }
    }
  }

  predicate OccursAt(s: string, part: string, i: nat) {
    i + |part| <= |s| && s[i..i + |part|] == part
  }

  /** One text occurs in another. */
  predicate Contains(s: string, part: string) {
    exists i: nat :: i <= |s| && OccursAt(s, part, i)
  }

  lemma ContainsPart(s: string, longer: string, part: string)
    requires Contains(s, longer) && Contains(longer, part)
    ensures Contains(s, part)
  {
    var i: nat :| i <= |s| && OccursAt(s, longer, i);
    var j: nat :| j <= |longer| && OccursAt(longer, part, j);
    forall k | 0 <= k < |part|
      ensures s[i + j + k] == part[k]
    {
      assert longer[j..j + |part|][k] == longer[j + k];
      assert s[i..i + |longer|][j + k] == s[i + (j + k)];
    }
    assert OccursAt(s, part, i + j);
  }

  lemma LowerContains(s: string, part: string)
    requires Contains(s, part)
    ensures Contains(Lower(s), Lower(part))
  {
    var i: nat :| i <= |s| && OccursAt(s, part, i);
    forall k | 0 <= k < |part|
      ensures Lower(s)[i + k] == Lower(part)[k]
    {
      assert s[i + k] == s[i..i + |part|][k];
    }
    assert OccursAt(Lower(s), Lower(part), i);
  }

  /** Only the letters A to Z change, to the letter 32 places on. */
  lemma LowerCaseLetters(c: char)
    ensures ToLower(c) as int == if 65 <= c as int <= 90 then c as int + 32 else c as int
  {
  }

  /** The white space of the Unicode Standard, by number. */
  lemma WhiteSpace(c: char)
    ensures var n := c as int;
            IsSpace(c) <==>
            || 9 <= n <= 13 || n == 32 || n == 0x85 || n == 0xA0 || n == 0x1680 || 0x2000 <= n <= 0x200A
            || n == 0x2028 || n == 0x2029 || n == 0x202F || n == 0x205F || n == 0x3000
  {
  }

  ghost predicate AllSpace(s: string) {
    forall i :: 0 <= i < |s| ==> IsSpace(s[i])
  }

  /** Trimming takes white space off both ends, and all of it. */
  lemma {:induction false} TrimExactly(s: string) returns (before: string, after: string)
    ensures s == before + Trim(s) + after && AllSpace(before) && AllSpace(after)
    ensures Trim(s) != "" ==> !IsSpace(Trim(s)[0]) && !IsSpace(Trim(s)[|Trim(s)| - 1])
    decreases |s|
  {
    hide IsSpace;
    before, after := "", "";
    if s != "" {
      if IsSpace(s[0]) {
        before, after := TrimExactly(s[1..]);
        OneBefore(s, before, Trim(s[1..]), after);
        before := [s[0]] + before;
      } else if IsSpace(s[|s| - 1]) {
        before, after := TrimExactly(s[..|s| - 1]);
        OneAfter(s, before, Trim(s[..|s| - 1]), after);
        after := after + [s[|s| - 1]];
      } else {
        OneBefore(" " + s, "", s, "");
      }
    } else {
      assert "" + "" + "" == "";
    }
  }

  lemma OneBefore(s: string, a: string, b: string, c: string)
    requires s != "" && s[1..] == a + b + c
    ensures s == ([s[0]] + a) + b + c
    ensures AllSpace(a) && IsSpace(s[0]) ==> AllSpace([s[0]] + a)
    ensures a == "" && c == "" ==> a + b + c == b
  {
    hide IsSpace;
    assert s == [s[0]] + s[1..];
  }

  lemma OneAfter(s: string, a: string, b: string, c: string)
    requires s != "" && s[..|s| - 1] == a + b + c
    ensures s == a + b + (c + [s[|s| - 1]])
    ensures AllSpace(c) && IsSpace(s[|s| - 1]) ==> AllSpace(c + [s[|s| - 1]])
  {
    hide IsSpace;
    assert s == s[..|s| - 1] + [s[|s| - 1]];
  }

  /** A text is found wherever it stands in another. */
  lemma ContainsMiddle(before: string, part: string, after: string)
    ensures Contains(before + part + after, part)
  {
    assert OccursAt(before + part + after, part, |before|);
  }
}
