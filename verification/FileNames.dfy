/** equal_filenames (samples/zenadriver/src/utils.hxx): a backward comparison of
    two paths up to their last directory separator, ignoring the case of ASCII
    letters and one NUL at the end. */
module FileNames {

  /** A string of character codes, narrow or wide. */
  type Name = seq<int>

  const NUL := 0
  const BACKSLASH := 92

  function Upper(c: int): int { if 97 <= c <= 122 then c - 32 else c }

  /** The same character, or the two cases of one ASCII letter. */
  predicate SameLetter(c: int, d: int) {
    c == d || (97 <= c <= 122 && d == c - 32) || (97 <= d <= 122 && c == d - 32)
  }

  lemma UpperIgnoresCase(c: int, d: int)
    ensures Upper(c) == Upper(d) <==> SameLetter(c, d)
  {
  }

  /** The same name but for the case of ASCII letters. */
  predicate SameButCase(s: Name, t: Name) {
    |s| == |t| && forall i :: 0 <= i < |s| ==> SameLetter(s[i], t[i])
  }

  /** The name without the one NUL it may end in. */
  function Body(s: Name): Name {
    if s != [] && s[|s| - 1] == NUL then s[..|s| - 1] else s
  }

  /** rfind: the last index of c, or -1. */
  function LastIndex(s: Name, c: int): (k: int)
    ensures -1 <= k < |s|
  {
    if s == [] then -1 else if s[|s| - 1] == c then |s| - 1 else LastIndex(s[..|s| - 1], c)
  }

  /** What follows the last separator, in upper case. */
  function Base(s: Name): (b: Name)
    ensures |b| == |s| - 1 - LastIndex(s, BACKSLASH)
  {
    var k := LastIndex(s, BACKSLASH) + 1;
    seq(|s| - k, i requires 0 <= i < |s| - k => Upper(s[k + i]))
  }

  /** What two names are compared by. */
  function Key(s: Name): Name { Base(Body(s)) }

  /** A name that can be equal to something on the right. */
  predicate Proper(s: Name) { s != [] && s[|s| - 1] != BACKSLASH }

  /** The relation that equal_filenames computes. */
  predicate SameFile(s1: Name, s2: Name) {
    s1 != [] && Proper(s2) && Key(s1) == Key(s2)
  }

  predicate SameBase(x: Name, y: Name) { Base(x) == Base(y) }

  lemma BaseSnoc(s: Name)
    requires s != [] && s[|s| - 1] != BACKSLASH
    ensures Base(s) == Base(s[..|s| - 1]) + [Upper(s[|s| - 1])]
  {
    assert LastIndex(s, BACKSLASH) == LastIndex(s[..|s| - 1], BACKSLASH);
  }

  /** Comparing from the end, one character decides or is dropped from both. */
  lemma SameBaseStep(x: Name, y: Name)
    requires x != [] && y != []
    ensures var c, d := x[|x| - 1], y[|y| - 1];
            && (Upper(c) != Upper(d) ==> !SameBase(x, y))
            && (Upper(c) == Upper(d) && c == BACKSLASH ==> SameBase(x, y) && d == BACKSLASH)
            && (Upper(c) == Upper(d) && c != BACKSLASH ==>
                  d != BACKSLASH && (SameBase(x, y) <==> SameBase(x[..|x| - 1], y[..|y| - 1])))
  {
    var c, d := x[|x| - 1], y[|y| - 1];
    if c != BACKSLASH {
      BaseSnoc(x);
    }
    if d != BACKSLASH {
      BaseSnoc(y);
    }
    if c != BACKSLASH && d != BACKSLASH {
      SnocEqual(Base(x[..|x| - 1]), Upper(c), Base(y[..|y| - 1]), Upper(d));
    }
  }

  lemma SnocEqual(u: Name, c: int, v: Name, d: int)
    ensures u + [c] == v + [d] <==> u == v && c == d
  {
    if u + [c] == v + [d] {
      assert |u| == |v|;
      assert (u + [c])[..|u|] == u && (v + [d])[..|v|] == v;
      assert (u + [c])[|u|] == c && (v + [d])[|v|] == d;
    }
  }

  lemma SameBaseEmpty(y: Name)
    ensures SameBase([], y) <==> y == [] || y[|y| - 1] == BACKSLASH
    ensures SameBase(y, []) <==> y == [] || y[|y| - 1] == BACKSLASH
  {
    if y != [] && y[|y| - 1] != BACKSLASH {
      BaseSnoc(y);
    }
  }

  /** The backward loop, both iterators past the NUL. */
  method EqualBases(s1: Name, s2: Name) returns (r: bool)
    ensures r <==> SameBase(s1, s2)
  {
    var i, j := |s1|, |s2|;
    ghost var x, y := s1, s2;
    ghost var same := SameBase(x, y);
    while i > 0
      invariant 0 <= i <= |s1| && 0 <= j <= |s2|
      invariant x == s1[..i] && y == s2[..j]
      invariant same <==> SameBase(x, y)
    {
      if j == 0 {
        SameBaseEmpty(x);
        return s1[i - 1] == BACKSLASH;
      }
      SameBaseStep(x, y);
      if Upper(s1[i - 1]) != Upper(s2[j - 1]) {
        return false;
      }
      if s1[i - 1] == BACKSLASH {
        return s2[j - 1] == BACKSLASH;
      }
      i, j := i - 1, j - 1;
      x, y := x[..i], y[..j];
    }
    SameBaseEmpty(y);
    return j == 0 || s2[j - 1] == BACKSLASH;
  }

  method EqualFilenames(s1: Name, s2: Name) returns (r: bool)
    ensures r <==> SameFile(s1, s2)
  {
    if s1 == [] || s2 == [] || s2[|s2| - 1] == BACKSLASH {
      return false;
    }
    var i, j := |s1|, |s2|;
    if s2[j - 1] == NUL {
      j := j - 1;
    }
    if s1[i - 1] == NUL {
      i := i - 1;
    }
    assert s1[..i] == Body(s1) && s2[..j] == Body(s2);
    r := EqualBases(s1[..i], s2[..j]);
  }

  /** Among names that do not end in a separator it is an equivalence; it is
      always transitive, reflexive exactly on such names, and where it holds it
      can be turned round exactly when the left name is one. */
  lemma SameFileIsEquivalence(a: Name, b: Name, c: Name)
    ensures SameFile(a, a) <==> Proper(a)
    ensures SameFile(a, b) ==> (SameFile(b, a) <==> Proper(a))
    ensures SameFile(a, b) && SameFile(b, c) ==> SameFile(a, c)
  {
  }

  /** It is not symmetric: a separator alone equals a NUL alone, but not the other way round. */
  lemma NotSymmetric()
    ensures SameFile([BACKSLASH], [NUL]) && !SameFile([NUL], [BACKSLASH])
  {
    assert Body([NUL]) == [] && Body([BACKSLASH]) == [BACKSLASH];
  }

  lemma {:induction false} LastIndexIs(s: Name, c: int, k: int)
    requires -1 <= k < |s| && (k >= 0 ==> s[k] == c) && forall i :: k < i < |s| ==> s[i] != c
    ensures LastIndex(s, c) == k
  {
    if k < |s| - 1 {
      LastIndexIs(s[..|s| - 1], c, k);
    }
  }

  lemma {:induction false} LastIndexFound(s: Name, c: int)
    ensures LastIndex(s, c) >= 0 ==> s[LastIndex(s, c)] == c
    ensures forall i :: LastIndex(s, c) < i < |s| ==> s[i] != c
  {
    if s != [] && s[|s| - 1] != c {
      LastIndexFound(s[..|s| - 1], c);
    }
  }

  /** The base of a path is what comes after its directory. */
  lemma BaseAfter(dir: Name, x: Name)
    requires dir == [] || dir[|dir| - 1] == BACKSLASH
    requires BACKSLASH !in x
    ensures |Base(dir + x)| == |x|
    ensures forall i :: 0 <= i < |x| ==> Base(dir + x)[i] == Upper(x[i])
  {
    LastIndexIs(dir + x, BACKSLASH, |dir| - 1);
  }

  lemma BaseOfBare(x: Name)
    requires BACKSLASH !in x
    ensures |Base(x)| == |x|
    ensures forall i :: 0 <= i < |x| ==> Base(x)[i] == Upper(x[i])
  {
    LastIndexIs(x, BACKSLASH, -1);
  }

  // ---------------------------------------------------------------- what the comparison means

  lemma {:induction false} SeparatorsAgree(s: Name, t: Name)
    requires SameButCase(s, t)
    ensures LastIndex(s, BACKSLASH) == LastIndex(t, BACKSLASH)
  {
    if s != [] && s[|s| - 1] != BACKSLASH {
      assert SameLetter(s[|s| - 1], t[|t| - 1]);
      SeparatorsAgree(s[..|s| - 1], t[..|t| - 1]);
    } else if s != [] {
      assert SameLetter(s[|s| - 1], t[|t| - 1]);
    }
  }

  lemma BasesAgree(s: Name, t: Name)
    requires SameButCase(s, t)
    ensures Base(s) == Base(t)
  {
    SeparatorsAgree(s, t);
    var k := LastIndex(s, BACKSLASH) + 1;
    forall i | 0 <= i < |Base(s)|
      ensures Base(s)[i] == Base(t)[i]
    {
      UpperIgnoresCase(s[k + i], t[k + i]);
    }
  }

  /** Other letters in upper or lower case, on either side, do not change the answer. */
  lemma CaseIsIgnored(s1: Name, t1: Name, s2: Name, t2: Name)
    requires SameButCase(s1, t1) && SameButCase(s2, t2)
    ensures SameFile(s1, s2) <==> SameFile(t1, t2)
  {
    assert s1 != [] ==> SameLetter(s1[|s1| - 1], t1[|t1| - 1]);
    assert s2 != [] ==> SameLetter(s2[|s2| - 1], t2[|t2| - 1]);
    assert SameButCase(Body(s1), Body(t1)) && SameButCase(Body(s2), Body(t2));
    BasesAgree(Body(s1), Body(t1));
    BasesAgree(Body(s2), Body(t2));
  }

  /** A directory, or nothing. */
  predicate IsDirectory(dir: Name) { dir == [] || dir[|dir| - 1] == BACKSLASH }

  predicate IsBare(name: Name) { name != [] && BACKSLASH !in name && NUL !in name }

  /** Two paths are equal exactly when the files they end in are, up to case,
      whatever the directories and with or without a NUL at the end. */
  lemma FilesDecide(d1: Name, f1: Name, nul1: bool, d2: Name, f2: Name, nul2: bool)
    requires IsDirectory(d1) && IsBare(f1) && IsDirectory(d2) && IsBare(f2)
    ensures SameFile(d1 + f1 + (if nul1 then [NUL] else []), d2 + f2 + (if nul2 then [NUL] else []))
       <==> SameButCase(f1, f2)
  {
    KeyOfPath(d1, f1, nul1);
    KeyOfPath(d2, f2, nul2);
    var k1, k2 := Base(d1 + f1), Base(d2 + f2);
    if |f1| == |f2| {
      forall i | 0 <= i < |f1|
        ensures k1[i] == k2[i] <==> SameLetter(f1[i], f2[i])
      {
        UpperIgnoresCase(f1[i], f2[i]);
      }
    }
  }

  lemma KeyOfPath(dir: Name, file: Name, nul: bool)
    requires IsDirectory(dir) && IsBare(file)
    ensures var path := dir + file + if nul then [NUL] else [];
            && Proper(path) && Key(path) == Base(dir + file) && |Base(dir + file)| == |file|
            && forall i :: 0 <= i < |file| ==> Key(path)[i] == Upper(file[i])
  {
    var path := dir + file + if nul then [NUL] else [];
    assert path[..|dir + file|] == dir + file;
    assert file[|file| - 1] in file && path[|dir + file| - 1] == file[|file| - 1];
    assert Body(path) == dir + file;
    BaseAfter(dir, file);
  }
}
