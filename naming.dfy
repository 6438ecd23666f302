/**
 * The display name stored for a lead: first and last name joined by a
 * space, stripped of surrounding whitespace, with a placeholder when
 * nothing is left.
 */
module Naming {
  import opened Fields

  /** The name given to a lead whose name fields are blank. */
  const Placeholder: string := "Kid Has No Name Apparently"

  /** Python's `str.isspace()` for one character: the characters `str.strip()` removes. */
  predicate IsSpace(c: char)
  {
    || c == ' '
    || ('\t' <= c <= '\r')
    || ('\U{1C}' <= c <= '\U{1F}')
    || c == '\U{85}' || c == '\U{A0}' || c == '\U{1680}'
    || ('\U{2000}' <= c <= '\U{200A}')
    || c == '\U{2028}' || c == '\U{2029}' || c == '\U{202F}' || c == '\U{205F}' || c == '\U{3000}'
  }

  predicate AllSpace(s: string)
  {
    forall k :: 0 <= k < |s| ==> IsSpace(s[k])
  }

  /** Drops leading whitespace. */
  function TrimStart(s: string): string
  {
    if s != [] && IsSpace(s[0]) then TrimStart(s[1..]) else s
  }

  /** Drops trailing whitespace. */
  function TrimEnd(s: string): string
  {
    if s != [] && IsSpace(s[|s| - 1]) then TrimEnd(s[..|s| - 1]) else s
  }

  /** What TrimStart leaves is a suffix starting with a non-space, after whitespace only. */
  lemma {:induction false} TrimStartSpec(s: string)
    ensures var r := TrimStart(s);
      && |r| <= |s| && r == s[|s| - |r|..]
      && AllSpace(s[..|s| - |r|])
      && (r != [] ==> !IsSpace(r[0]))
  {
    if s != [] && IsSpace(s[0]) {
      TrimStartSpec(s[1..]);
      var r := TrimStart(s);
      assert s[1..][..|s| - 1 - |r|] == s[1..|s| - |r|];
      assert s[..|s| - |r|] == [s[0]] + s[1..|s| - |r|];
    }
  }

  /** What TrimEnd leaves is a prefix ending with a non-space, before whitespace only. */
  lemma {:induction false} TrimEndSpec(s: string)
    ensures var r := TrimEnd(s);
      && |r| <= |s| && r == s[..|r|]
      && AllSpace(s[|r|..])
      && (r != [] ==> !IsSpace(r[|r| - 1]))
  {
    if s != [] && IsSpace(s[|s| - 1]) {
      TrimEndSpec(s[..|s| - 1]);
      var r := TrimEnd(s);
      assert s[..|s| - 1][|r|..] == s[|r|..|s| - 1];
      assert s[|r|..] == s[|r|..|s| - 1] + [s[|s| - 1]];
    }
  }

  /** Python's `str.strip()` with no argument. */
  function Strip(s: string): string
  {
    TrimEnd(TrimStart(s))
  }

  /**
   * Independent definition of "r is s without its surrounding whitespace":
   * a slice of s, everything outside it whitespace, and its own ends not.
   */
  ghost predicate IsTrimOf(r: string, s: string)
  {
    exists i, j :: TrimAt(r, s, i, j)
  }

  /** r is the slice s[i..j], with whitespace only outside it and none at its ends. */
  ghost predicate TrimAt(r: string, s: string, i: int, j: int)
  {
    && 0 <= i <= j <= |s| && r == s[i..j] && AllSpace(s[..i]) && AllSpace(s[j..])
    && (r != [] ==> !IsSpace(r[0]) && !IsSpace(r[|r| - 1]))
  }

  /** Strip meets the definition. */
  lemma StripIsTrim(s: string)
    ensures IsTrimOf(Strip(s), s)
  {
    var t := TrimStart(s);
    var r := TrimEnd(t);
    TrimStartSpec(s);
    TrimEndSpec(t);
    var i := |s| - |t|;
    var j := i + |r|;
    assert s[i..j] == t[..|r|] == r;
    assert s[j..] == t[|r|..];
    assert TrimAt(r, s, i, j);
  }

  /** There is only one way to strip a string, so Strip is that way. */
  lemma TrimIsUnique(a: string, b: string, s: string)
    requires IsTrimOf(a, s) && IsTrimOf(b, s)
    ensures a == b
  {
    var i1, j1 :| TrimAt(a, s, i1, j1);
    var i2, j2 :| TrimAt(b, s, i2, j2);
    if a == [] {
      TrimOfBlank(a, s);
      TrimOfAllSpace(b, s);
    } else if b == [] {
      TrimOfBlank(b, s);
      TrimOfAllSpace(a, s);
    } else {
      assert s[i1] == a[0] && s[i2] == b[0];
      SameStart(s, i1, i2);
      assert s[j1 - 1] == a[|a| - 1] && s[j2 - 1] == b[|b| - 1];
      SameEnd(s, j1, j2);
    }
  }

  /** Two positions each preceded only by whitespace and holding a non-space coincide. */
  lemma SameStart(s: string, i1: nat, i2: nat)
    requires i1 < |s| && i2 < |s| && !IsSpace(s[i1]) && !IsSpace(s[i2])
    requires AllSpace(s[..i1]) && AllSpace(s[..i2])
    ensures i1 == i2
  {
    SpacesBefore(s, i1);
    SpacesBefore(s, i2);
  }

  /** Two positions each followed only by whitespace and holding a non-space coincide. */
  lemma SameEnd(s: string, j1: nat, j2: nat)
    requires 0 < j1 <= |s| && 0 < j2 <= |s| && !IsSpace(s[j1 - 1]) && !IsSpace(s[j2 - 1])
    requires AllSpace(s[j1..]) && AllSpace(s[j2..])
    ensures j1 == j2
  {
    SpacesAfter(s, j1);
    SpacesAfter(s, j2);
  }

  lemma SpacesBefore(s: string, i: nat)
    requires i <= |s| && AllSpace(s[..i])
    ensures forall m :: 0 <= m < i ==> IsSpace(s[m])
  {
    forall m | 0 <= m < i ensures IsSpace(s[m]) {
      assert s[..i][m] == s[m];
    }
  }

  lemma SpacesAfter(s: string, j: nat)
    requires j <= |s| && AllSpace(s[j..])
    ensures forall m :: j <= m < |s| ==> IsSpace(s[m])
  {
    forall m | j <= m < |s| ensures IsSpace(s[m]) {
      assert s[j..][m - j] == s[m];
    }
  }

  /** An empty trim means the whole string is whitespace. */
  lemma TrimOfBlank(r: string, s: string)
    requires IsTrimOf(r, s) && r == []
    ensures AllSpace(s)
  {
    var i, j :| TrimAt(r, s, i, j);
    assert s == s[..i] + s[j..];
  }

  /** A string made of whitespace only strips to nothing. */
  lemma TrimOfAllSpace(r: string, s: string)
    requires IsTrimOf(r, s) && AllSpace(s)
    ensures r == []
  {
    var i, j :| TrimAt(r, s, i, j);
    AllSpaceSlice(s, i, j);
  }

  lemma AllSpaceSlice(s: string, i: nat, j: nat)
    requires i <= j <= |s| && AllSpace(s)
    ensures AllSpace(s[i..j])
  {
    forall k | 0 <= k < j - i ensures IsSpace(s[i..j][k]) {
      assert s[i..j][k] == s[i + k];
    }
  }

  /** Stripping leaves nothing exactly when the string is all whitespace. */
  lemma StripEmptyIffBlank(s: string)
    ensures Strip(s) == [] <==> AllSpace(s)
  {
    StripIsTrim(s);
    if Strip(s) == [] {
      TrimOfBlank(Strip(s), s);
    }
    if AllSpace(s) {
      TrimOfAllSpace(Strip(s), s);
    }
  }

  /** `(first + " " + last).strip() or Placeholder`. */
  function DisplayName(first: string, last: string): (name: string)
    ensures name != []
  {
    var joined := Strip(first + " " + last);
    if joined == [] then Placeholder else joined
  }

  /**
   * The display name is the placeholder when both parts are blank, and
   * otherwise the joined name without its surrounding whitespace.
   */
  lemma DisplayNameSpec(first: string, last: string)
    ensures AllSpace(first) && AllSpace(last) ==> DisplayName(first, last) == Placeholder
    ensures !(AllSpace(first) && AllSpace(last)) ==> IsTrimOf(DisplayName(first, last), first + " " + last)
  {
    var s := first + " " + last;
    StripEmptyIffBlank(s);
    StripIsTrim(s);
    if AllSpace(first) && AllSpace(last) {
      assert AllSpace(s) by {
        forall k | 0 <= k < |s| ensures IsSpace(s[k]) {
          if k < |first| {
            assert s[k] == first[k];
          } else if k > |first| {
            assert s[k] == last[k - |first| - 1];
          }
        }
      }
    } else if !AllSpace(first) {
      var k :| 0 <= k < |first| && !IsSpace(first[k]);
      assert s[k] == first[k];
    } else {
      var k :| 0 <= k < |last| && !IsSpace(last[k]);
      assert s[|first| + 1 + k] == last[k];
    }
  }

  /** The name derived from a record: missing or blank name fields count as "". */
  function DerivedName(fields: FieldMap): (name: string)
    ensures name != []
  {
    DisplayName(OrEmpty(Get(fields, "First Name")), OrEmpty(Get(fields, "Last Name")))
  }

  /**
   * Missing, None and empty name fields count as "": the derived name is
   * the placeholder when both fields give only whitespace (in particular
   * when both are absent), and otherwise the joined name, stripped.
   */
  lemma DerivedNameSpec(fields: FieldMap)
    ensures var first, last := OrEmpty(Get(fields, "First Name")), OrEmpty(Get(fields, "Last Name"));
      && (!Truthy(Get(fields, "First Name")) ==> first == "")
      && (!Truthy(Get(fields, "Last Name")) ==> last == "")
      && (AllSpace(first) && AllSpace(last) ==> DerivedName(fields) == Placeholder)
      && (!(AllSpace(first) && AllSpace(last)) ==> IsTrimOf(DerivedName(fields), first + " " + last))
    ensures !Truthy(Get(fields, "First Name")) && !Truthy(Get(fields, "Last Name")) ==> DerivedName(fields) == Placeholder
  {
    DisplayNameSpec(OrEmpty(Get(fields, "First Name")), OrEmpty(Get(fields, "Last Name")));
  }
}
