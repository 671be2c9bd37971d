/**
 * String trimming as JavaScript's String.prototype.trim performs it: leading and
 * trailing white space is removed, where white space means the code points of the
 * ECMAScript WhiteSpace and LineTerminator productions.
 */
module Text {

  /** Tab, line feed, vertical tab, form feed, carriage return, the space separators
      (category Zs), the line and paragraph separators and the byte order mark. */
  predicate IsSpace(c: char) {
    || c == '\t' || c == '\n' || c == '\U{000B}' || c == '\U{000C}' || c == '\r'
    || c == ' ' || c == '\U{00A0}' || c == '\U{1680}'
    || ('\U{2000}' <= c <= '\U{200A}')
    || c == '\U{2028}' || c == '\U{2029}' || c == '\U{202F}' || c == '\U{205F}'
    || c == '\U{3000}' || c == '\U{FEFF}'
  }

  /** Every character of s is white space (the empty string included). */
  predicate Blank(s: string) {
    forall i | 0 <= i < |s| :: IsSpace(s[i])
  }

  /** Neither starts nor ends with white space: what trimming leaves. */
  predicate Unpadded(s: string) {
    s == [] || (!IsSpace(s[0]) && !IsSpace(s[|s| - 1]))
  }

  /** JavaScript's s.trim(): white space is dropped from the front and from the
      back until neither end is white space. The result is empty exactly when s
      is blank, and never starts or ends with white space. */
  function Trim(s: string): (r: string)
    ensures |r| <= |s|
    ensures r == [] <==> Blank(s)
    ensures Unpadded(r)
    decreases |s|
  {
    if s == [] then []
    else if IsSpace(s[0]) then
      assert Blank(s) <==> Blank(s[1..]) by {
        if Blank(s[1..]) {
          forall i | 0 <= i < |s| ensures IsSpace(s[i]) {
            if i > 0 { assert s[i] == s[1..][i - 1]; }
          }
        }
      }
      Trim(s[1..])
    else if IsSpace(s[|s| - 1]) then
      assert !Blank(s);
      Trim(s[..|s| - 1])
    else
      s
  }

  /** Trimming strips exactly the blank margins: surrounding an unpadded string
      with any white space and trimming gives that string back. */
  lemma {:induction false} TrimStripsMargins(lead: string, m: string, trail: string)
    requires Blank(lead) && Blank(trail)
    requires Unpadded(m)
    ensures Trim(lead + m + trail) == m
    decreases |lead| + |trail|
  {
    var s := lead + m + trail;
    if lead != [] {
      assert s[0] == lead[0];
      assert s[1..] == lead[1..] + m + trail;
      TrimStripsMargins(lead[1..], m, trail);
    } else if trail != [] {
      assert s[|s| - 1] == trail[|trail| - 1];
      assert s[..|s| - 1] == lead + m + trail[..|trail| - 1];
      TrimStripsMargins(lead, m, trail[..|trail| - 1]);
    } else {
      assert s == m;
    }
  }

  /** A white-space character in front of a string with blank margins widens its
      leading margin by one. */
  lemma WidenLeadingMargin(s: string, lead: nat, n: nat)
    requires s != [] && IsSpace(s[0]) && lead + n <= |s| - 1
    requires Blank(s[1..][..lead]) && Blank(s[1..][lead + n..])
    ensures s[lead + 1..lead + 1 + n] == s[1..][lead..lead + n]
    ensures Blank(s[..lead + 1]) && Blank(s[lead + 1 + n..])
  {
  }

  /** A white-space character behind a string with blank margins widens its
      trailing margin by one. */
  lemma WidenTrailingMargin(s: string, lead: nat, n: nat)
    requires s != [] && IsSpace(s[|s| - 1]) && lead + n <= |s| - 1
    requires Blank(s[..|s| - 1][..lead]) && Blank(s[..|s| - 1][lead + n..])
    ensures s[lead..lead + n] == s[..|s| - 1][lead..lead + n]
    ensures Blank(s[..lead]) && Blank(s[lead + n..])
  {
    var back, t := s[lead + n..], s[..|s| - 1][lead + n..];
    forall i | 0 <= i < |back| ensures IsSpace(back[i]) {
      if i < |t| { assert back[i] == t[i]; }
    }
  }

  /** What trimming keeps is a slice of s, and what it drops on either side is
      blank: s is lead blanks, then Trim(s), then trailing blanks. */
  lemma {:induction false} TrimIsSlice(s: string) returns (lead: nat)
    ensures lead + |Trim(s)| <= |s|
    ensures Trim(s) == s[lead..lead + |Trim(s)|]
    ensures Blank(s[..lead]) && Blank(s[lead + |Trim(s)|..])
    decreases |s|
  {
    if s == [] {
      lead := 0;
    } else if IsSpace(s[0]) {
      var r := Trim(s[1..]);
      assert Trim(s) == r;
      var l := TrimIsSlice(s[1..]);
      WidenLeadingMargin(s, l, |r|);
      lead := l + 1;
    } else if IsSpace(s[|s| - 1]) {
      var r := Trim(s[..|s| - 1]);
      assert Trim(s) == r;
      lead := TrimIsSlice(s[..|s| - 1]);
      WidenTrailingMargin(s, lead, |r|);
    } else {
      lead := 0;
      assert s[|s|..] == [];
    }
  }

  /** Trimming twice is trimming once. */
  lemma TrimIdempotent(s: string)
    ensures Trim(Trim(s)) == Trim(s)
  {
  }

}
