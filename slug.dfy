/** The anchor an event name links to in the gateway-events documentation:
    `name.toLowerCase().trim().replace(/_/g, "-").replaceAll('*', '')`. */
module Slug {

  predicate IsAsciiUpper(ch: char)
  {
    'A' <= ch <= 'Z'
  }

  /** `toLowerCase` on one character, for the ASCII letters event names are written in. */
  function LowerChar(ch: char): char
  {
    if IsAsciiUpper(ch) then (ch as int + 32) as char else ch
  }

  /** `String.prototype.toLowerCase`, character by character. */
  function ToLowerCase(s: string): (r: string)
    ensures |r| == |s|
    ensures forall i :: 0 <= i < |s| ==> r[i] == LowerChar(s[i])
  {
    if s == [] then [] else [LowerChar(s[0])] + ToLowerCase(s[1..])
  }

  /** The characters `trim` removes: ECMAScript WhiteSpace and LineTerminator. */
  predicate IsJsWhiteSpace(ch: char)
  {
    ch == '\t' || ch == '\n' || ch == '\U{000B}' || ch == '\U{000C}' || ch == '\r' || ch == ' ' ||
    ch == '\U{00A0}' || ch == '\U{1680}' || ('\U{2000}' <= ch <= '\U{200A}') ||
    ch == '\U{2028}' || ch == '\U{2029}' || ch == '\U{202F}' || ch == '\U{205F}' ||
    ch == '\U{3000}' || ch == '\U{FEFF}'
  }

  /** Drops leading white space: the result is the suffix of s after its white-space run. */
  function TrimStart(s: string): (r: string)
    ensures |r| <= |s| && r == s[|s| - |r|..]
    ensures r == [] || !IsJsWhiteSpace(r[0])
    ensures forall i :: 0 <= i < |s| - |r| ==> IsJsWhiteSpace(s[i])
  {
    if s != [] && IsJsWhiteSpace(s[0]) then TrimStart(s[1..]) else s
  }

  /** Drops trailing white space: the result is the prefix of s before its white-space run. */
  function TrimEnd(s: string): (r: string)
    ensures |r| <= |s| && r == s[..|r|]
    ensures r == [] || !IsJsWhiteSpace(r[|r| - 1])
    ensures forall i :: |r| <= i < |s| ==> IsJsWhiteSpace(s[i])
  {
    if s != [] && IsJsWhiteSpace(s[|s| - 1]) then TrimEnd(s[..|s| - 1]) else s
  }

  /** `String.prototype.trim`: no white space is left at either end. */
  function Trim(s: string): (r: string)
    ensures |r| <= |s|
    ensures r == [] || (!IsJsWhiteSpace(r[0]) && !IsJsWhiteSpace(r[|r| - 1]))
  {
    TrimEnd(TrimStart(s))
  }

  /** `trim` keeps a contiguous slice of s: the one that starts after the leading white space. */
  lemma {:induction false} TrimSlice(s: string)
    ensures |s| - |TrimStart(s)| + |Trim(s)| <= |s|
    ensures Trim(s) == s[|s| - |TrimStart(s)|..|s| - |TrimStart(s)| + |Trim(s)|]
  {
    var t := TrimStart(s);
    var start := |s| - |t|;
    assert t == s[start..];
  }

  /** What `trim` removes is white space, from the two ends only. */
  lemma {:induction false} TrimRemovesWhiteSpace(s: string)
    ensures |s| - |TrimStart(s)| + |Trim(s)| <= |s|
    ensures forall i :: 0 <= i < |s| - |TrimStart(s)| ==> IsJsWhiteSpace(s[i])
    ensures forall i :: |s| - |TrimStart(s)| + |Trim(s)| <= i < |s| ==> IsJsWhiteSpace(s[i])
  {
    var t := TrimStart(s);
    var r := TrimEnd(t);
    var start := |s| - |t|;
    assert t == s[start..];
    forall i | start + |r| <= i < |s|
      ensures IsJsWhiteSpace(s[i])
    {
      assert s[i] == t[i - start];
    }
  }

  /** `replace(/_/g, "-")`: every underscore becomes a hyphen, nothing else changes. */
  function ReplaceUnderscores(s: string): (r: string)
    ensures |r| == |s|
    ensures forall i :: 0 <= i < |s| ==> r[i] == (if s[i] == '_' then '-' else s[i])
  {
    if s == [] then [] else [if s[0] == '_' then '-' else s[0]] + ReplaceUnderscores(s[1..])
  }

  /** `replaceAll('*', '')`: the stars are deleted and every other character is kept, as often
      as it occurs. */
  function RemoveStars(s: string): (r: string)
    ensures '*' !in r
    ensures |r| <= |s|
    ensures forall ch :: ch != '*' ==> multiset(r)[ch] == multiset(s)[ch]
  {
    if s == [] then []
    else
      var rest := RemoveStars(s[1..]);
      assert multiset(s) == multiset{s[0]} + multiset(s[1..]) by {
        assert s == [s[0]] + s[1..];
      }
      if s[0] == '*' then rest else [s[0]] + rest
  }

  /** Removing stars works piece by piece, so the order of the kept characters is unchanged. */
  lemma {:induction false} RemoveStarsAppend(a: string, b: string)
    ensures RemoveStars(a + b) == RemoveStars(a) + RemoveStars(b)
  {
    if a == [] {
      assert a + b == b;
    } else {
      assert (a + b)[0] == a[0] && (a + b)[1..] == a[1..] + b;
      RemoveStarsAppend(a[1..], b);
    }
  }

  /** A name without stars is left as it is. */
  lemma {:induction false} RemoveStarsNoStar(s: string)
    requires '*' !in s
    ensures RemoveStars(s) == s
  {
    if s != [] {
      RemoveStarsNoStar(s[1..]);
    }
  }

  /** The documentation anchor for an event name. */
  function Slug(name: string): string
  {
    RemoveStars(ReplaceUnderscores(Trim(ToLowerCase(name))))
  }

  predicate NoAsciiUpper(s: string)
  {
    forall i :: 0 <= i < |s| ==> !IsAsciiUpper(s[i])
  }

  /** Lower-casing leaves no ASCII capital behind. */
  lemma {:induction false} LowerHasNoUpper(name: string)
    ensures NoAsciiUpper(ToLowerCase(name))
  {
  }

  /** `trim` only drops characters, so it brings no capital in. */
  lemma {:induction false} TrimHasNoUpper(s: string)
    requires NoAsciiUpper(s)
    ensures NoAsciiUpper(Trim(s))
  {
    TrimSlice(s);
  }

  /** Replacing underscores adds no capital and leaves no underscore. */
  lemma {:induction false} ReplaceHasNoUpper(s: string)
    requires NoAsciiUpper(s)
    ensures NoAsciiUpper(ReplaceUnderscores(s)) && '_' !in ReplaceUnderscores(s)
  {
  }

  /** An anchor has no underscore, no star and no ASCII capital, and is never longer than the name. */
  lemma {:induction false} SlugShape(name: string)
    ensures '_' !in Slug(name) && '*' !in Slug(name)
    ensures forall ch :: ch in Slug(name) ==> !IsAsciiUpper(ch)
    ensures |Slug(name)| <= |name|
  {
    var hyphens := ReplaceUnderscores(Trim(ToLowerCase(name)));
    var slug := RemoveStars(hyphens);
    LowerHasNoUpper(name);
    TrimHasNoUpper(ToLowerCase(name));
    ReplaceHasNoUpper(Trim(ToLowerCase(name)));
    forall ch | ch in slug
      ensures ch != '_' && !IsAsciiUpper(ch)
    {
      assert multiset(slug)[ch] > 0;
      assert ch in multiset(hyphens);
      var i :| 0 <= i < |hyphens| && hyphens[i] == ch;
    }
  }

  /** Lower-casing never turns a visible character into white space. */
  lemma {:induction false} LowerKeepsNonWhiteSpace(ch: char)
    requires !IsJsWhiteSpace(ch)
    ensures !IsJsWhiteSpace(LowerChar(ch))
  {
  }

  /** `trim` leaves a string alone when neither end is white space. */
  lemma {:induction false} TrimKeeps(s: string)
    requires s != [] && !IsJsWhiteSpace(s[0]) && !IsJsWhiteSpace(s[|s| - 1])
    ensures Trim(s) == s
  {
    assert TrimStart(s) == s;
    assert TrimEnd(s) == s;
  }

  /** Lower-casing works piece by piece. */
  lemma {:induction false} LowerAppend(a: string, b: string)
    ensures ToLowerCase(a + b) == ToLowerCase(a) + ToLowerCase(b)
  {
    assert forall i :: 0 <= i < |a + b| ==>
      ToLowerCase(a + b)[i] == (ToLowerCase(a) + ToLowerCase(b))[i];
  }

  /** Replacing underscores works piece by piece. */
  lemma {:induction false} ReplaceAppend(a: string, b: string)
    ensures ReplaceUnderscores(a + b) == ReplaceUnderscores(a) + ReplaceUnderscores(b)
  {
    assert forall i :: 0 <= i < |a + b| ==>
      ReplaceUnderscores(a + b)[i] == (ReplaceUnderscores(a) + ReplaceUnderscores(b))[i];
  }

  /** For a name that neither starts nor ends with white space, appending " *" appends a space
      to its anchor: `trim` runs while the star still shields the space, and the star alone is
      removed afterwards. */
  lemma {:induction false} StarredNameKeepsSpace(base: string)
    requires base != [] && !IsJsWhiteSpace(base[0]) && !IsJsWhiteSpace(base[|base| - 1])
    ensures Slug(base + " *") == Slug(base) + " "
  {
    var lower := ToLowerCase(base);
    LowerAppend(base, " *");
    assert ToLowerCase(" *") == " *";
    var starred := lower + " *";
    LowerKeepsNonWhiteSpace(base[0]);
    LowerKeepsNonWhiteSpace(base[|base| - 1]);
    TrimKeeps(lower);
    assert starred[0] == lower[0] && starred[|starred| - 1] == '*';
    TrimKeeps(starred);
    var hyphens := ReplaceUnderscores(lower);
    ReplaceAppend(lower, " *");
    assert ReplaceUnderscores(" *") == " *";
    RemoveStarsAppend(hyphens, " *");
    RemoveStarsOfSpaceStar();
  }

  lemma {:induction false} RemoveStarsOfSpaceStar()
    ensures RemoveStars(" *") == " "
  {
    assert " *"[1..] == "*";
    assert "*"[1..] == [];
  }

  /** Event names are written in capitals and underscores. */
  predicate IsPlainName(name: string)
  {
    forall i :: 0 <= i < |name| ==> IsAsciiUpper(name[i]) || name[i] == '_'
  }

  /** The anchor of a plain event name has its length and is its lower-case form with every
      underscore turned into a hyphen. */
  lemma {:induction false} PlainNameSlug(name: string)
    requires IsPlainName(name)
    ensures |Slug(name)| == |name|
    ensures forall i :: 0 <= i < |name| ==>
      Slug(name)[i] == if name[i] == '_' then '-' else LowerChar(name[i])
  {
    var lower := ToLowerCase(name);
    assert Trim(lower) == lower by {
      if name != [] {
        TrimKeeps(lower);
      }
    }
    var hyphens := ReplaceUnderscores(lower);
    forall i | 0 <= i < |hyphens|
      ensures hyphens[i] == if name[i] == '_' then '-' else LowerChar(name[i])
      ensures hyphens[i] != '*'
    {
      var ch := name[i];
      assert lower[i] == LowerChar(ch);
      assert hyphens[i] == if lower[i] == '_' then '-' else lower[i];
      if ch != '_' {
        assert 'a' <= LowerChar(ch) <= 'z';
      }
    }
    RemoveStarsNoStar(hyphens);
  }
}
