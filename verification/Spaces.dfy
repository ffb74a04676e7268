/** Rust's `trim`: white space at the ends of a text. */
module Spaces {

  /** The Unicode characters that are white space. */
  predicate IsSpace(c: char) {
    var n := c as int;
    || 0x9 <= n <= 0xD || n == 0x20 || n == 0x85 || n == 0xA0 || n == 0x1680 || 0x2000 <= n <= 0x200A
    || n == 0x2028 || n == 0x2029 || n == 0x202F || n == 0x205F || n == 0x3000
  }

  predicate Blank(s: string) {
    forall k :: 0 <= k < |s| ==> IsSpace(s[k])
  }

  predicate NoSpace(s: string) {
    forall k :: 0 <= k < |s| ==> !IsSpace(s[k])
  }

  function TrimStart(s: string): (r: string)
    ensures |r| <= |s|
  {
    if s != "" && IsSpace(s[0]) then TrimStart(s[1..]) else s
  }

  function TrimEnd(s: string): (r: string)
    ensures |r| <= |s|
  {
    if s != "" && IsSpace(s[|s| - 1]) then TrimEnd(s[..|s| - 1]) else s
  }

  function Trim(s: string): (r: string)
    ensures |r| <= |s|
  {
    TrimEnd(TrimStart(s))
  }

  /** No white space at either end. */
  predicate Trimmed(s: string) {
    s == "" || (!IsSpace(s[0]) && !IsSpace(s[|s| - 1]))
  }

  lemma {:induction false} TrimStartBlank(lead: string, s: string)
    requires Blank(lead)
    ensures TrimStart(lead + s) == TrimStart(s)
  {
    if lead == "" {
      assert lead + s == s;
    } else {
      assert (lead + s)[1..] == lead[1..] + s;
      TrimStartBlank(lead[1..], s);
    }
  }

  lemma {:induction false} TrimEndBlank(s: string, trail: string)
    requires Blank(trail)
    ensures TrimEnd(s + trail) == TrimEnd(s)
  {
    if trail == "" {
      assert s + trail == s;
    } else {
      var n := |trail| - 1;
      assert (s + trail)[..|s| + n] == s + trail[..n];
      TrimEndBlank(s, trail[..n]);
    }
  }

  /** Trimming takes off just the white space put around a trimmed text. */
  lemma TrimPadded(lead: string, s: string, trail: string)
    requires Blank(lead) && Blank(trail) && Trimmed(s)
    ensures Trim(lead + s + trail) == s
  {
    assert lead + s + trail == lead + (s + trail);
    TrimStartBlank(lead, s + trail);
    if s == "" {
      assert s + trail == trail && trail + "" == trail;
      TrimStartBlank(trail, "");
    } else {
      TrimEndBlank(s, trail);
    }
  }

  // ---- What trimming means ----

  /** The white space of Unicode, character by character. */
  lemma SpaceTable(c: char)
    ensures IsSpace(c) <==>
            c as int in {9, 10, 11, 12, 13, 32, 133, 160, 5760, 8192, 8193, 8194, 8195, 8196, 8197, 8198, 8199, 8200,
                         8201, 8202, 8232, 8233, 8239, 8287, 12288}
  {
  }

  /** Where what is left after the white space at the start begins. */
  lemma {:induction false} TrimStartAt(s: string) returns (k: nat)
    ensures k <= |s| && TrimStart(s) == s[k..] && (forall i :: 0 <= i < k ==> IsSpace(s[i]))
    ensures k == |s| || !IsSpace(s[k])
  {
    k := 0;
    if s != "" && IsSpace(s[0]) {
      k := TrimStartAt(s[1..]);
      k := k + 1;
    }
  }

  /** And where what is left before the white space at the end ends. */
  lemma {:induction false} TrimEndAt(s: string) returns (k: nat)
    ensures k <= |s| && TrimEnd(s) == s[..k] && (forall i :: k <= i < |s| ==> IsSpace(s[i]))
    ensures k == 0 || !IsSpace(s[k - 1])
  {
    k := |s|;
    if s != "" && IsSpace(s[|s| - 1]) {
      var before := s[..|s| - 1];
      k := TrimEndAt(before);
      assert before[..k] == s[..k];
    }
  }

  /** `s` is `t` with white space around it. */
  ghost predicate Padded(s: string, t: string) {
    exists lead, trail :: Blank(lead) && Blank(trail) && s == lead + t + trail
  }

  lemma Middle(s: string, a: nat, rest: string, b: nat)
    requires a <= |s| && rest == s[a..] && b <= |rest| && (a == |s| || !IsSpace(s[a])) && (b == 0 || !IsSpace(rest[b - 1]))
    requires (forall i :: 0 <= i < a ==> IsSpace(s[i])) && forall i :: b <= i < |rest| ==> IsSpace(rest[i])
    ensures Trimmed(rest[..b]) && Padded(s, rest[..b])
  {
    var lead, trail := s[..a], rest[b..];
    assert Blank(lead) && Blank(trail) && s == lead + rest[..b] + trail;
  }

  lemma TrimSplits(s: string)
    ensures Trimmed(Trim(s)) && Padded(s, Trim(s))
  {
    var a := TrimStartAt(s);
    var rest := s[a..];
    var b := TrimEndAt(rest);
    Middle(s, a, rest, b);
  }

  /** What is left of a text is the one trimmed text that it is with white space
      around it. */
  lemma TrimMeans(s: string, t: string)
    ensures Trim(s) == t <==>
            Padded(s, t) && (t == "" || (!IsSpace(t[0]) && !IsSpace(t[|t| - 1])))
  {
    TrimSplits(s);
    if Padded(s, t) && Trimmed(t) {
      var lead, trail :| Blank(lead) && Blank(trail) && s == lead + t + trail;
      TrimPadded(lead, t, trail);
    }
  }

  lemma BlankTrims(s: string)
    ensures Trim(s) == "" <==> Blank(s)
  {
    TrimSplits(s);
    if Blank(s) {
      assert Blank("") && s == s + "" + "";
      TrimMeans(s, "");
    }
  }
}
