/** The few string operations of the Go library that the program's decisions rest on. */
module Text {
  /** White space as `unicode.IsSpace` defines it. */
  predicate IsSpace(c: char) {
    var n := c as int;
    || 0x09 <= n <= 0x0d || n == 0x20 || n == 0x85 || n == 0xa0 || n == 0x1680
    || 0x2000 <= n <= 0x200a || n == 0x2028 || n == 0x2029 || n == 0x202f || n == 0x205f
    || n == 0x3000
  }

  function TrimLeft(s: string): string {
    if s != "" && IsSpace(s[0]) then TrimLeft(s[1..]) else s
  }

  function TrimRight(s: string): (t: string)
    ensures |t| <= |s|
  {
    if s != "" && IsSpace(s[|s| - 1]) then TrimRight(s[..|s| - 1]) else s
  }

  function TrimSpace(s: string): string {
    TrimRight(TrimLeft(s))
  }

  predicate Padded(s: string) {
    s != "" && (IsSpace(s[0]) || IsSpace(s[|s| - 1]))
  }

  lemma {:induction false} TrimLeftShrinks(s: string)
    ensures |TrimLeft(s)| <= |s|
    ensures s != "" && IsSpace(s[0]) ==> |TrimLeft(s)| < |s|
  {
    if s != "" && IsSpace(s[0]) {
      TrimLeftShrinks(s[1..]);
    }
  }

  /** Trimming changes exactly the strings with white space at an end. */
  lemma TrimSpaceIdentity(s: string)
    ensures TrimSpace(s) == s <==> !Padded(s)
  {
    TrimLeftShrinks(s);
    if s != "" && !IsSpace(s[0]) && IsSpace(s[|s| - 1]) {
      assert |TrimRight(s)| < |s|;
    }
  }

  /** Lower case as far as ASCII results go: two foreign capitals have ASCII lower case. */
  function LowerChar(c: char): char {
    if 'A' <= c <= 'Z' then (c as int + 32) as char
    else if c as int == 0x130 then 'i'
    else if c as int == 0x212a then 'k'
    else c
  }

  /** Upper case as far as ASCII results go: two foreign letters have ASCII upper case. */
  function UpperChar(c: char): char {
    if 'a' <= c <= 'z' then (c as int - 32) as char
    else if c as int == 0x131 then 'I'
    else if c as int == 0x17f then 'S'
    else c
  }

  function ToLower(s: string): string {
    seq(|s|, i requires 0 <= i < |s| => LowerChar(s[i]))
  }

  function ToUpper(s: string): string {
    seq(|s|, i requires 0 <= i < |s| => UpperChar(s[i]))
  }

  /** The first element of `strings.Fields`, or the empty string. */
  function FirstField(s: string): string {
    UpToSpace(TrimLeft(s))
  }

  function UpToSpace(s: string): string {
    if s == "" || IsSpace(s[0]) then "" else [s[0]] + UpToSpace(s[1..])
  }

  /** The position of the first `c` in `s`, or the length of `s`. */
  function IndexOf(s: string, c: char): (k: nat)
    ensures k <= |s|
    ensures k < |s| ==> s[k] == c
    ensures forall i :: 0 <= i < k ==> s[i] != c
  {
    if s == "" || s[0] == c then 0 else 1 + IndexOf(s[1..], c)
  }

  /** Whether `part` occurs in `s`. */
  predicate Contains(s: string, part: string) {
    part <= s || (s != "" && Contains(s[1..], part))
  }

  /** `Contains` finds exactly the stretches of the string. */
  lemma {:induction false} ContainsIff(s: string, part: string)
    ensures Contains(s, part) <==> exists k :: OccursAt(s, part, k)
  {
    OccursAtStart(s, part);
    if s != "" {
      ContainsIff(s[1..], part);
      forall k | k >= 0 ensures OccursAt(s, part, k + 1) <==> OccursAt(s[1..], part, k) {
        OccursLater(s, part, k);
      }
      if k :| OccursAt(s, part, k) {
        assert k > 0 ==> OccursAt(s[1..], part, k - 1);
      }
      if k :| OccursAt(s[1..], part, k) {
        assert OccursAt(s, part, k + 1);
      }
    }
  }

  lemma OccursAtStart(s: string, part: string)
    ensures OccursAt(s, part, 0) <==> part <= s
  {
  }

  lemma OccursLater(s: string, part: string, k: nat)
    requires s != ""
    ensures OccursAt(s, part, k + 1) <==> OccursAt(s[1..], part, k)
  {
    if k + 1 + |part| <= |s| {
      assert s[1..][k..k + |part|] == s[k + 1..k + 1 + |part|];
    }
  }

  ghost predicate OccursAt(s: string, part: string, k: int) {
    0 <= k && k + |part| <= |s| && s[k..k + |part|] == part
  }

  /** Trimming removes the white space at both ends and nothing else. */
  lemma TrimSpaceParts(s: string) returns (before: string, after: string)
    ensures s == before + TrimSpace(s) + after
    ensures AllSpace(before) && AllSpace(after) && !Padded(TrimSpace(s))
  {
    before := LeftPart(s);
    after := RightPart(TrimLeft(s));
    TrimRightKeepsStart(TrimLeft(s));
  }

  predicate AllSpace(s: string) {
    forall x :: 0 <= x < |s| ==> IsSpace(s[x])
  }

  lemma {:induction false} LeftPart(s: string) returns (before: string)
    ensures s == before + TrimLeft(s) && AllSpace(before)
    ensures TrimLeft(s) != "" ==> !IsSpace(TrimLeft(s)[0])
  {
    before := "";
    if s != "" && IsSpace(s[0]) {
      var rest := LeftPart(s[1..]);
      before := [s[0]] + rest;
    }
  }

  lemma {:induction false} RightPart(s: string) returns (after: string)
    ensures s == TrimRight(s) + after && AllSpace(after)
    ensures TrimRight(s) != "" ==> !IsSpace(TrimRight(s)[|TrimRight(s)| - 1])
  {
    after := "";
    if s != "" && IsSpace(s[|s| - 1]) {
      var rest := RightPart(s[..|s| - 1]);
      after := rest + [s[|s| - 1]];
    }
  }

  lemma {:induction false} TrimRightKeepsStart(s: string)
    requires s != "" ==> !IsSpace(s[0])
    ensures TrimRight(s) != "" ==> s != "" && TrimRight(s)[0] == s[0]
  {
    if s != "" && IsSpace(s[|s| - 1]) {
      TrimRightKeepsStart(s[..|s| - 1]);
    }
  }

  /** Changing case keeps the length, maps each letter to the other case and touches no other ASCII
      character. */
  lemma CaseFolding(s: string, i: nat)
    requires i < |s|
    ensures |ToLower(s)| == |ToUpper(s)| == |s|
    ensures 'A' <= s[i] <= 'Z' ==> ToLower(s)[i] as int - s[i] as int == 'a' as int - 'A' as int
    ensures 'a' <= s[i] <= 'z' ==> s[i] as int - ToUpper(s)[i] as int == 'a' as int - 'A' as int
    ensures s[i] as int < 128 && !('A' <= s[i] <= 'Z') ==> ToLower(s)[i] == s[i]
    ensures s[i] as int < 128 && !('a' <= s[i] <= 'z') ==> ToUpper(s)[i] == s[i]
  {
  }
}
