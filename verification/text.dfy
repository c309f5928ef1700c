/**
 Character classes and the string normalisations the validators use:
 Python's str.isdigit, str.strip, str.title and str.lower, restricted to ASCII.
 */
module Text {

  /** Python's str.isspace on ASCII: space, \t \n \v \f \r and the separators \x1c-\x1f. */
  predicate IsSpace(c: char) {
    c == ' ' || 9 <= c as int <= 13 || 28 <= c as int <= 31
  }

  predicate IsDigit(c: char) {
    '0' <= c <= '9'
  }

  predicate IsUpper(c: char) {
    'A' <= c <= 'Z'
  }

  predicate IsLower(c: char) {
    'a' <= c <= 'z'
  }

  /** A cased character, in the sense str.title uses to find word starts. */
  predicate IsLetter(c: char) {
    IsUpper(c) || IsLower(c)
  }

  function ToUpper(c: char): char {
    if IsLower(c) then (c as int - 32) as char else c
  }

  function ToLower(c: char): char {
    if IsUpper(c) then (c as int + 32) as char else c
  }

  predicate AllSpace(s: string) {
    forall k :: 0 <= k < |s| ==> IsSpace(s[k])
  }

  predicate AllDigits(s: string) {
    forall k :: 0 <= k < |s| ==> IsDigit(s[k])
  }

  /** Neither end is whitespace: what str.strip leaves behind. */
  predicate Stripped(s: string) {
    |s| == 0 || (!IsSpace(s[0]) && !IsSpace(s[|s| - 1]))
  }

  /** `r` is `s` with some whitespace cut from each end. */
  ghost predicate IsCore(r: string, s: string) {
    exists i, j :: 0 <= i <= j <= |s| && r == s[i..j] && AllSpace(s[..i]) && AllSpace(s[j..])
  }

  /** str.lstrip(): drop leading whitespace. */
  function TrimStart(s: string): (r: string)
    ensures |r| <= |s| && r == s[|s| - |r|..]
    ensures forall k :: 0 <= k < |s| - |r| ==> IsSpace(s[k])
    ensures |r| == 0 || !IsSpace(r[0])
    decreases |s|
  {
    if |s| > 0 && IsSpace(s[0]) then
      TrimStart(s[1..])
    else
      s
  }

  /** str.rstrip(): drop trailing whitespace. */
  function TrimEnd(s: string): (r: string)
    ensures |r| <= |s| && r == s[..|r|]
    ensures forall k :: |r| <= k < |s| ==> IsSpace(s[k])
    ensures |r| == 0 || !IsSpace(r[|r| - 1])
    decreases |s|
  {
    if |s| > 0 && IsSpace(s[|s| - 1]) then
      TrimEnd(s[..|s| - 1])
    else
      s
  }

  /**
   str.strip(): the one substring of `s` that has no whitespace at either end
   and only whitespace around it.
   */
  function Trim(s: string): (r: string)
    ensures Stripped(r)
    ensures IsCore(r, s)
    ensures |r| == 0 <==> AllSpace(s)
  {
    TrimIsCore(s);
    TrimEmptyIffAllSpace(s);
    TrimEnd(TrimStart(s))
  }

  lemma TrimIsCore(s: string)
    ensures IsCore(TrimEnd(TrimStart(s)), s)
  {
    var t := TrimStart(s);
    var r := TrimEnd(t);
    var i := |s| - |t|;
    var j := i + |r|;
    assert r == s[i..j] by {
      assert t == s[i..];
      assert r == t[..|r|];
    }
    assert AllSpace(s[..i]) by {
      forall k | 0 <= k < i ensures IsSpace(s[..i][k]) {
        assert s[..i][k] == s[k];
      }
    }
    assert AllSpace(s[j..]) by {
      forall k | 0 <= k < |s| - j ensures IsSpace(s[j..][k]) {
        assert s[j..][k] == t[|r| + k];
      }
    }
  }

  lemma TrimEmptyIffAllSpace(s: string)
    ensures |TrimEnd(TrimStart(s))| == 0 <==> AllSpace(s)
  {
    var t := TrimStart(s);
    var r := TrimEnd(t);
    if |t| > 0 {
      assert !IsSpace(t[0]) && t[0] == s[|s| - |t|];
    }
  }

  /** Lower-case every character, like str.lower on ASCII. */
  function Lower(s: string): (r: string)
    ensures |r| == |s|
  {
    seq(|s|, k requires 0 <= k < |s| => ToLower(s[k]))
  }

  /**
   str.title on ASCII: a letter that follows a letter is lowered, any other
   letter is raised; `afterLetter` says whether the character before `s` was a letter.
   */
  function TitleFrom(s: string, afterLetter: bool): (r: string)
    ensures |r| == |s|
    ensures |s| > 0 ==> r[0] == if afterLetter then ToLower(s[0]) else ToUpper(s[0])
    ensures forall k :: 1 <= k < |s| ==>
      r[k] == if IsLetter(s[k - 1]) then ToLower(s[k]) else ToUpper(s[k])
  {
    if |s| == 0 then []
    else
      [if afterLetter then ToLower(s[0]) else ToUpper(s[0])] + TitleFrom(s[1..], IsLetter(s[0]))
  }

  /**
   str.title: a letter at the start or after a non-letter is raised, a letter
   after a letter is lowered; other characters are kept.
   */
  function Title(s: string): (r: string)
    ensures |r| == |s|
    ensures forall k :: 0 <= k < |s| ==>
      r[k] == if k > 0 && IsLetter(s[k - 1]) then ToLower(s[k]) else ToUpper(s[k])
  {
    TitleFrom(s, false)
  }

  /** The stripped core of `s` is unique, so it is what Trim returns. */
  lemma TrimUnique(s: string, i: nat, j: nat)
    requires i <= j <= |s|
    requires AllSpace(s[..i]) && AllSpace(s[j..])
    requires Stripped(s[i..j])
    ensures Trim(s) == s[i..j]
  {
    var r := Trim(s);
    var i', j' :| 0 <= i' <= j' <= |s| && r == s[i'..j'] && AllSpace(s[..i']) && AllSpace(s[j'..]);
    CoresAgree(s, i, j, i', j');
  }

  lemma CoresAgree(s: string, i: nat, j: nat, i': nat, j': nat)
    requires i <= j <= |s| && i' <= j' <= |s|
    requires AllSpace(s[..i]) && AllSpace(s[j..]) && Stripped(s[i..j])
    requires AllSpace(s[..i']) && AllSpace(s[j'..]) && Stripped(s[i'..j'])
    ensures s[i..j] == s[i'..j']
  {
    if i < j && i' < j' {
      assert !IsSpace(s[i]) && !IsSpace(s[j - 1]);
      assert !IsSpace(s[i']) && !IsSpace(s[j' - 1]);
    }
  }

  /** Stripping a stripped string changes nothing; in particular strip is idempotent. */
  lemma TrimIdempotent(s: string)
    ensures Trim(Trim(s)) == Trim(s)
  {
  }

  /** Title-casing only ever changes letter case: lowering undoes it. */
  lemma LowerOfTitle(s: string)
    ensures Lower(Title(s)) == Lower(s)
  {
    var t := Title(s);
    forall k | 0 <= k < |s|
      ensures Lower(t)[k] == Lower(s)[k]
    {
      assert t[k] == if k > 0 && IsLetter(s[k - 1]) then ToLower(s[k]) else ToUpper(s[k]);
    }
  }

  /** Lowering never turns whitespace into a letter or back, so a stripped text stays stripped. */
  lemma LowerKeepsStripped(t: string)
    requires Stripped(t)
    ensures Stripped(Lower(t))
  {
  }

  lemma LowerIdempotent(t: string)
    ensures Lower(Lower(t)) == Lower(t)
  {
  }

  /** A letter after an apostrophe starts a new word: "they're" becomes "They'Re". */
  lemma TitleAfterApostrophe()
    ensures Title("they're") == "They'Re"
  {
  }

  /** A run of letters after a letter is simply lowered. */
  lemma {:induction false} TitleOfLettersAfterLetter(s: string)
    requires forall k :: 0 <= k < |s| ==> IsLetter(s[k])
    ensures TitleFrom(s, true) == Lower(s)
    decreases |s|
  {
    if |s| > 0 {
      TitleOfLettersAfterLetter(s[1..]);
      assert Lower(s) == [ToLower(s[0])] + Lower(s[1..]);
    }
  }

  /** A word of letters is title-cased to an upper-case initial and a lower-case rest. */
  lemma TitleOfWord(s: string)
    requires |s| > 0
    requires forall k :: 0 <= k < |s| ==> IsLetter(s[k])
    ensures Title(s) == [ToUpper(s[0])] + Lower(s[1..])
  {
    TitleOfLettersAfterLetter(s[1..]);
  }

}
