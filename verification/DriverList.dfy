/** The list of allowed drivers on its way from the launcher
    (samples/zenadriver/src/launcher.cpp) to the driver that filters by it
    (samples/zenadriver/src/driver.cpp). */
module DriverList {
  import opened Common
  import opened FileNames
  import ListMatching

  /** config.h: the block in the driver image, and how many wide characters it holds. */
  const SHARED_DATA_SIZE: nat := 64 * 1024
  const BLOCK_CHARS: nat := 32 * 1024

  // ---------------------------------------------------------------- the launcher's side

  /** A char stored as a wchar_t. */
  function Widened(c: int): (w: int)
    ensures 0 <= w < 65536
    ensures 0 <= c < 65536 ==> w == c
    ensures -128 <= c < 0 ==> w == c + 65536
  {
    c % 65536
  }

  function WidenedName(s: Name): (w: Name)
    ensures |w| == |s|
  {
    seq(|s|, i requires 0 <= i < |s| => Widened(s[i]))
  }

  /** Every name followed by a NUL. */
  function Serialised(names: seq<Name>): Name {
    if names == [] then [] else names[0] + [NUL] + Serialised(names[1..])
  }

  lemma SerialisedFrom(names: seq<Name>, i: nat)
    requires i < |names|
    ensures Serialised(names[i..]) == names[i] + [NUL] + Serialised(names[i + 1..])
  {
    assert names[i..][0] == names[i] && names[i..][1..] == names[i + 1..];
  }

  lemma Regroup(a: Name, b: Name, c: Name)
    ensures a + (b + c) == a + b + c
  {
  }

  /** The two passes of proceed(): a NUL is pushed onto every name, then all are appended. */
  method SerialiseList(names: seq<Name>) returns (list: Name)
    ensures list == Serialised(names)
  {
    var drivers := names;
    var i := 0;
    while i < |drivers|
      invariant 0 <= i <= |drivers| == |names|
      invariant forall k :: 0 <= k < |names| ==> drivers[k] == if k < i then names[k] + [NUL] else names[k]
    {
      drivers := drivers[i := drivers[i] + [NUL]];
      i := i + 1;
    }
    list := [];
    i := 0;
    while i < |drivers|
      invariant 0 <= i <= |names| == |drivers|
      invariant list + Serialised(names[i..]) == Serialised(names)
    {
      SerialisedFrom(names, i);
      Regroup(list, drivers[i], Serialised(names[i + 1..]));
      list := list + drivers[i];
      i := i + 1;
    }
  }

  /** build_driver_image: `image` is the driver image from the block on.  The
      size check counts characters against the size of the block in bytes. */
  method BuildDriverImage(list: Name, image: array<int>) returns (ok: bool)
    requires |list| <= SHARED_DATA_SIZE ==> |list| <= image.Length
    modifies image
    ensures ok <==> |list| <= 65536
    ensures ok ==> image[..] == WidenedName(list) + old(image[|list|..])
    ensures !ok ==> image[..] == old(image[..])
  {
    if |list| > SHARED_DATA_SIZE {
      return false;
    }
    var i := 0;
    while i < |list|
      invariant 0 <= i <= |list|
      invariant forall k :: 0 <= k < image.Length ==> image[k] == if k < i then Widened(list[k]) else old(image[k])
    {
      image[i] := Widened(list[i]);
      i := i + 1;
    }
    return true;
  }

  // ---------------------------------------------------------------- the driver's side

  function FirstNul(mem: Name): (k: nat)
    ensures k <= |mem|
  {
    if mem == [] || mem[0] == NUL then 0 else 1 + FirstNul(mem[1..])
  }

  /** The strings of a NUL-separated list that ends in an empty one or with the
      memory; an unfinished last string is dropped. */
  function MultiSz(mem: Name): seq<Name>
    decreases |mem|
  {
    var k := FirstNul(mem);
    if k == 0 || k == |mem| then [] else [mem[..k]] + MultiSz(mem[k + 1..])
  }

  function Codes(s: string): (n: Name)
    ensures |n| == |s| && forall i :: 0 <= i < |s| ==> n[i] == s[i] as int
  {
    seq(|s|, i requires 0 <= i < |s| => s[i] as int)
  }

  const UNDERSCORE := 95
  const DUMP_ATAPI: Name := Codes("dump_atapi.sys")
  const DUMP_WMILIB: Name := Codes("dump_WMILIB.SYS")

  predicate IsDump(name: Name) { SameFile(name, DUMP_ATAPI) || SameFile(name, DUMP_WMILIB) }

  /** erase(und - 4, 5): the character at und and the four before it are cut out. */
  function Erased(name: Name, und: int): Name
    requires 4 <= und < |name|
  {
    name[..und - 4] + name[und + 1..]
  }

  /** An ASCII literal "dump_..." with no other underscore and no separator. */
  predicate DumpLiteral(lit: Name) {
    && |lit| > 5 && lit[4] == UNDERSCORE && BACKSLASH !in lit
    && (forall i :: 0 <= i < |lit| ==> 0 < lit[i] < 128)
    && (forall i :: 5 <= i < |lit| ==> lit[i] != UNDERSCORE)
  }

  /** The i-th characters of lit and of the end of name are the same, up to case. */
  predicate Alike(name: Name, lit: Name, i: nat)
    requires i < |lit| <= |name|
  {
    Upper(name[|name| - |lit| + i]) == Upper(lit[i])
  }

  /** name is a directory and then lit, up to case. */
  ghost predicate EndsLike(name: Name, lit: Name) {
    && |lit| <= |name|
    && (|lit| == |name| || name[|name| - |lit| - 1] == BACKSLASH)
    && (forall i: nat {:trigger Alike(name, lit, i)} :: i < |lit| ==> Alike(name, lit, i))
  }

  lemma SameBaseEndsLike(name: Name, b: Name, lit: Name)
    requires Base(name) == b && |b| == |lit|
    requires forall i :: 0 <= i < |b| ==> b[i] == Upper(lit[i])
    ensures EndsLike(name, lit)
  {
    LastIndexFound(name, BACKSLASH);
    forall i: nat | i < |lit|
      ensures Alike(name, lit, i)
    {
      assert b[i] == Upper(name[|name| - |b| + i]);
    }
  }

  lemma SameFileEndsLike(name: Name, lit: Name)
    requires DumpLiteral(lit) && NUL !in name && SameFile(name, lit)
    ensures EndsLike(name, lit)
  {
    BaseOfBare(lit);
    assert name[|name| - 1] in name;
    assert Body(name) == name && Body(lit) == lit;
    SameBaseEndsLike(name, Base(lit), lit);
  }

  lemma DumpUnderscore(name: Name, lit: Name)
    requires DumpLiteral(lit) && EndsLike(name, lit)
    ensures LastIndex(name, UNDERSCORE) == |name| - |lit| + 4
  {
    var n := |name| - |lit|;
    assert Alike(name, lit, 4);
    forall i | n + 4 < i < |name|
      ensures name[i] != UNDERSCORE
    {
      assert Alike(name, lit, i - n);
    }
    LastIndexIs(name, UNDERSCORE, n + 4);
  }

  lemma EndsLikeSameFile(name: Name, lit: Name)
    requires EndsLike(name, lit) && |lit| > 0
    requires BACKSLASH !in lit && lit[|lit| - 1] != NUL && name[|name| - 1] != NUL
    ensures SameFile(name, lit)
  {
    var n := |name| - |lit|;
    var dir, tail := name[..n], name[n..];
    assert name == dir + tail;
    forall i: nat | i < |lit|
      ensures Upper(tail[i]) == Upper(lit[i]) && tail[i] != BACKSLASH
    {
      assert Alike(name, lit, i);
      assert lit[i] in lit;
    }
    BaseAfter(dir, tail);
    BaseOfBare(lit);
    assert Base(name) == Base(lit);
  }

  /** Cutting at position u takes "dump_" off the end of the path. */
  lemma ErasedEndsLike(name: Name, lit: Name, u: int)
    requires |lit| > 5 && EndsLike(name, lit) && u == |name| - |lit| + 4
    ensures EndsLike(Erased(name, u), lit[5..])
  {
    var rest, l := Erased(name, u), lit[5..];
    forall i: nat | i < |l|
      ensures Alike(rest, l, i)
    {
      assert Alike(name, lit, i + 5);
    }
  }

  /** A path to a dump driver loses exactly its "dump_", in any case of letters,
      and what is left is the same file as the rest of the literal. */
  lemma DumpPath(name: Name, lit: Name, u: int)
    requires DumpLiteral(lit) && NUL !in name && SameFile(name, lit)
    requires u == |name| - |lit| + 4
    ensures 4 <= u < |name| && LastIndex(name, UNDERSCORE) == u
    ensures SameFile(Erased(name, u), lit[5..])
  {
    SameFileEndsLike(name, lit);
    DumpUnderscore(name, lit);
    ErasedEndsLike(name, lit, u);
    ErasedIsSameFile(name, lit, u);
  }

  /** The directory is kept. */
  lemma CutOut(name: Name, n: nat, u: int)
    requires 5 <= n <= |name| && u == |name| - n + 4
    ensures Erased(name, u) == name[..|name| - n] + name[|name| - n + 5..]
  {
  }

  lemma ErasedIsSameFile(name: Name, lit: Name, u: int)
    requires DumpLiteral(lit) && |lit| <= |name| && name[|name| - 1] != NUL
    requires u == |name| - |lit| + 4 && EndsLike(Erased(name, u), lit[5..])
    ensures SameFile(Erased(name, u), lit[5..])
  {
    var rest, l := Erased(name, u), lit[5..];
    assert rest[|rest| - 1] == name[|name| - 1];
    assert l[|l| - 1] == lit[|lit| - 1];
    EndsLikeSameFile(rest, l);
  }

  lemma DumpLiterals()
    ensures DumpLiteral(DUMP_ATAPI) && |DUMP_ATAPI| == 14
    ensures DumpLiteral(DUMP_WMILIB) && |DUMP_WMILIB| == 15
  {
  }

  /** An entry of the white list as it is kept. */
  function Kept(name: Name): Name {
    if IsDump(name) && LastIndex(name, UNDERSCORE) >= 4 then Erased(name, LastIndex(name, UNDERSCORE)) else name
  }

  /** A path to either dump driver loses its "dump_"; every other name is kept as it is. */
  lemma KeptName(name: Name)
    requires NUL !in name
    ensures SameFile(name, Codes("dump_atapi.sys")) ==>
              |name| >= 14 && Kept(name) == name[..|name| - 14] + name[|name| - 9..]
    ensures SameFile(name, Codes("dump_WMILIB.SYS")) ==>
              |name| >= 15 && Kept(name) == name[..|name| - 15] + name[|name| - 10..]
    ensures !SameFile(name, Codes("dump_atapi.sys")) && !SameFile(name, Codes("dump_WMILIB.SYS")) ==> Kept(name) == name
  {
    DumpLiterals();
    if SameFile(name, DUMP_ATAPI) {
      KeptPath(name, DUMP_ATAPI);
    }
    if SameFile(name, DUMP_WMILIB) {
      KeptPath(name, DUMP_WMILIB);
    }
  }

  lemma KeptPath(name: Name, lit: Name)
    requires DumpLiteral(lit) && NUL !in name && IsDump(name) && SameFile(name, lit)
    ensures |lit| <= |name| && Kept(name) == name[..|name| - |lit|] + name[|name| - |lit| + 5..]
  {
    var u := |name| - |lit| + 4;
    DumpPath(name, lit, u);
    CutOut(name, |lit|, u);
  }

  function AllKept(names: seq<Name>): (kept: seq<Name>)
    ensures |kept| == |names|
  {
    seq(|names|, i requires 0 <= i < |names| => Kept(names[i]))
  }

  // ---------------------------------------------------------------- the round trip

  /** A name the block can carry: not empty, and no character that is NUL when stored. */
  predicate Storable(name: Name) {
    name != [] && forall i :: 0 <= i < |name| ==> Widened(name[i]) != NUL
  }

  function AllWidened(names: seq<Name>): seq<Name> {
    if names == [] then [] else [WidenedName(names[0])] + AllWidened(names[1..])
  }

  lemma {:induction false} FirstNulIs(mem: Name, k: nat)
    requires k <= |mem| && forall i :: 0 <= i < k ==> mem[i] != NUL
    requires k < |mem| ==> mem[k] == NUL
    ensures FirstNul(mem) == k
  {
    if k > 0 {
      FirstNulIs(mem[1..], k - 1);
    }
  }

  lemma MultiSzCons(w: Name, tail: Name)
    requires w != [] && NUL !in w
    ensures MultiSz(w + [NUL] + tail) == [w] + MultiSz(tail)
  {
    var mem := w + [NUL] + tail;
    FirstNulIs(mem, |w|);
    assert mem[..|w|] == w && mem[|w| + 1..] == tail;
  }

  lemma WidenedCons(names: seq<Name>, rest: Name)
    requires names != []
    ensures WidenedName(Serialised(names)) + rest
         == WidenedName(names[0]) + [NUL] + (WidenedName(Serialised(names[1..])) + rest)
  {
    WidenedConcat(names[0] + [NUL], Serialised(names[1..]));
    WidenedConcat(names[0], [NUL]);
    assert WidenedName([NUL]) == [NUL];
  }

  lemma WidenedConcat(a: Name, b: Name)
    ensures WidenedName(a + b) == WidenedName(a) + WidenedName(b)
  {
  }

  /** Reading the block gives the written names and then whatever follows them. */
  lemma {:induction false} ReadBack(names: seq<Name>, rest: Name)
    requires forall n :: n in names ==> Storable(n)
    ensures MultiSz(WidenedName(Serialised(names)) + rest) == AllWidened(names) + MultiSz(rest)
  {
    if names == [] {
      assert WidenedName(Serialised(names)) + rest == rest;
    } else {
      assert Storable(names[0]);
      WidenedCons(names, rest);
      MultiSzCons(WidenedName(names[0]), WidenedName(Serialised(names[1..])) + rest);
      ReadBack(names[1..], rest);
    }
  }

  /** What follows the list adds nothing exactly when it is empty, starts with a
      NUL, or has none. */
  lemma NothingFollows(rest: Name)
    ensures MultiSz(rest) == [] <==> rest == [] || rest[0] == NUL || NUL !in rest
  {
    FirstNulFound(rest);
  }

  lemma {:induction false} FirstNulFound(mem: Name)
    ensures FirstNul(mem) < |mem| <==> NUL in mem
  {
    if mem != [] && mem[0] != NUL {
      FirstNulFound(mem[1..]);
    }
  }

  /** The driver reads back exactly the names that were written, under the exact condition. */
  lemma RoundTrip(names: seq<Name>, rest: Name)
    requires forall n :: n in names ==> Storable(n)
    ensures MultiSz(WidenedName(Serialised(names)) + rest) == AllWidened(names)
       <==> rest == [] || rest[0] == NUL || NUL !in rest
  {
    ReadBack(names, rest);
    NothingFollows(rest);
    var a := AllWidened(names);
    assert a + MultiSz(rest) == a ==> |MultiSz(rest)| == 0;
    assert a + [] == a;
  }

  /** The signature that marks the block has 129 characters: 65 wide ones, none of them NUL. */
  const SIGNATURE_CHARS: nat := 65

  ghost predicate ShippedBlock(block: Name) {
    |block| == BLOCK_CHARS && forall i :: 0 <= i < BLOCK_CHARS ==> (block[i] != NUL <==> i < SIGNATURE_CHARS)
  }

  /** Such as any 65 characters and zeros after them. */
  lemma SignatureAndZeros(signature: Name)
    requires |signature| == 65 && NUL !in signature
    ensures ShippedBlock(signature + seq(32703, _ => 0))
  {
  }

  /** How many of the names lie within the first n characters, each with its NUL. */
  function Whole(names: seq<Name>, n: nat): (m: nat)
    ensures m <= |names|
  {
    if names == [] || n <= |names[0]| then 0 else 1 + Whole(names[1..], n - |names[0]| - 1)
  }

  lemma {:induction false} NotAllWhole(names: seq<Name>, n: nat)
    ensures Whole(names, n) == |names| <==> |Serialised(names)| <= n
  {
    if names != [] && n > |names[0]| {
      NotAllWhole(names[1..], n - |names[0]| - 1);
    }
  }

  /** A list cut off after n characters is read as its whole names. */
  lemma {:induction false} ReadBackCut(names: seq<Name>, n: nat)
    requires n <= |Serialised(names)| && forall x :: x in names ==> Storable(x)
    ensures |AllWidened(names)| == |names|
    ensures MultiSz(WidenedName(Serialised(names))[..n]) == AllWidened(names)[..Whole(names, n)]
  {
    AllWidenedLength(names);
    var list := WidenedName(Serialised(names));
    if names != [] {
      assert Storable(names[0]);
      var w := WidenedName(names[0]);
      if n <= |w| {
        assert list[..n] == w[..n];
        CutString(list[..n]);
      } else {
        var k := n - |w| - 1;
        assert list[..n] == w + [NUL] + WidenedName(Serialised(names[1..]))[..k];
        MultiSzCons(w, WidenedName(Serialised(names[1..]))[..k]);
        ReadBackCut(names[1..], k);
        assert AllWidened(names)[..Whole(names, n)] == [w] + AllWidened(names[1..])[..Whole(names[1..], k)];
      }
    }
  }

  /** The block as the driver finds it when `list` has been written over the
      image from the block on. */
  function BlockAfter(list: Name, image: Name): (block: Name)
    requires |list| <= |image| && BLOCK_CHARS <= |image|
    ensures |block| == BLOCK_CHARS
  {
    (WidenedName(list) + image[|list|..])[..BLOCK_CHARS]
  }

  /** A list that the launcher accepts comes back exactly when it covers the
      signature and fits the block.  A shorter one leaves the end of the signature
      behind, which is read as one more name; a longer one runs over the end of
      the block, and only the names that lie whole within it are read. */
  lemma ShippedRoundTrip(names: seq<Name>, image: Name)
    requires |Serialised(names)| <= |image| && BLOCK_CHARS <= |image| && ShippedBlock(image[..BLOCK_CHARS])
    requires forall n :: n in names ==> Storable(n)
    ensures |AllWidened(names)| == |names|
    ensures var list, read := Serialised(names), MultiSz(BlockAfter(Serialised(names), image));
            && (read == AllWidened(names) <==> 65 <= |list| <= 32768)
            && (|list| < 65 ==> |read| == |names| + 1 && read[..|names|] == AllWidened(names))
            && (|list| > 32768 ==> Whole(names, 32768) < |names|
                                   && read == AllWidened(names)[..Whole(names, 32768)])
  {
    var list := Serialised(names);
    AllWidenedLength(names);
    if |list| <= BLOCK_CHARS {
      ShortList(names, image);
    } else {
      assert BlockAfter(list, image) == WidenedName(list)[..BLOCK_CHARS];
      ReadBackCut(names, BLOCK_CHARS);
      NotAllWhole(names, BLOCK_CHARS);
    }
  }

  lemma ShortList(names: seq<Name>, image: Name)
    requires |Serialised(names)| <= BLOCK_CHARS <= |image| && ShippedBlock(image[..BLOCK_CHARS])
    requires forall n :: n in names ==> Storable(n)
    ensures var read := MultiSz(BlockAfter(Serialised(names), image));
            if |Serialised(names)| >= SIGNATURE_CHARS then read == AllWidened(names)
            else |read| == |AllWidened(names)| + 1 && read[..|AllWidened(names)|] == AllWidened(names)
  {
    var n := |Serialised(names)|;
    var rest := image[..BLOCK_CHARS][n..];
    assert BlockAfter(Serialised(names), image) == WidenedName(Serialised(names)) + rest;
    ReadBack(names, rest);
    if n >= SIGNATURE_CHARS {
      NothingFollows(rest);
    } else {
      // the end of the signature, and the NUL after it
      FirstNulIs(rest, SIGNATURE_CHARS - n);
      NothingFollows(rest[SIGNATURE_CHARS - n + 1..]);
    }
  }

  /** The launcher's size check lets through lists the block cannot hold: one name
      of 40000 characters is accepted, and the driver reads nothing. */
  lemma OverrunIsAccepted(image: Name)
    requires |image| >= SHARED_DATA_SIZE && ShippedBlock(image[..BLOCK_CHARS])
    ensures var name: Name := seq(40000, _ => 65);
            && Storable(name) && |Serialised([name])| == 40001 <= 65536
            && MultiSz(BlockAfter(Serialised([name]), image)) == []
  {
    var name: Name := seq(40000, _ => 65);
    assert Serialised([name]) == name + [NUL];
    ShippedRoundTrip([name], image);
  }

  // ---------------------------------------------------------------- the driver's lists

  /** The string just read, with "dump_" cut out of the two dump drivers. */
  method KeepName(name: Name) returns (kept: Name)
    requires NUL !in name
    ensures kept == Kept(name)
  {
    var atapi := EqualFilenames(name, DUMP_ATAPI);
    var wmilib := EqualFilenames(name, DUMP_WMILIB);
    kept := name;
    if atapi || wmilib {
      DumpUnderscoreFound(name);
      var und := LastIndex(name, UNDERSCORE);
      kept := Erased(name, und);
    }
  }

  lemma DumpUnderscoreFound(name: Name)
    requires IsDump(name) && NUL !in name
    ensures LastIndex(name, UNDERSCORE) >= 4
  {
    DumpLiterals();
    if SameFile(name, DUMP_ATAPI) {
      DumpPath(name, DUMP_ATAPI, |name| - |DUMP_ATAPI| + 4);
    } else {
      DumpPath(name, DUMP_WMILIB, |name| - |DUMP_WMILIB| + 4);
    }
  }

  method PushKept(white: seq<Name>, name: Name, ghost raw: seq<Name>) returns (r: seq<Name>)
    requires NUL !in name && white == AllKept(raw)
    ensures r == AllKept(raw + [name])
  {
    var kept := KeepName(name);
    r := white + [kept];
    assert r == AllKept(raw + [name]);
  }

  /** The strings the loop still has to find at p, the current one having begun at `begin`. */
  function Remaining(mem: Name, begin: nat, p: nat): seq<Name>
    requires begin <= p <= |mem|
    decreases |mem| - p
  {
    if p == |mem| then []
    else if mem[p] != NUL then Remaining(mem, begin, p + 1)
    else if begin == p then []
    else [mem[begin..p]] + Remaining(mem, p + 1, p + 1)
  }

  lemma {:induction false} RemainingIsMultiSz(mem: Name, begin: nat, p: nat)
    requires begin <= p <= |mem| && forall i :: begin <= i < p ==> mem[i] != NUL
    ensures Remaining(mem, begin, p) == MultiSz(mem[begin..])
    decreases |mem| - p
  {
    if p == |mem| {
      CutString(mem[begin..]);
    } else if mem[p] != NUL {
      RemainingIsMultiSz(mem, begin, p + 1);
    } else {
      NextString(mem, begin, p);
      if begin < p {
        RemainingIsMultiSz(mem, p + 1, p + 1);
      }
    }
  }

  /** A string cut off by the end of the block is dropped. */
  lemma CutString(rest: Name)
    requires NUL !in rest
    ensures MultiSz(rest) == []
  {
    FirstNulIs(rest, |rest|);
  }

  lemma NextString(mem: Name, begin: nat, p: nat)
    requires begin <= p < |mem| && mem[p] == NUL && forall i :: begin <= i < p ==> mem[i] != NUL
    ensures begin == p ==> MultiSz(mem[begin..]) == []
    ensures begin < p ==> MultiSz(mem[begin..]) == [mem[begin..p]] + MultiSz(mem[p + 1..])
  {
    var rest := mem[begin..];
    FirstNulIs(rest, p - begin);
    assert rest[..p - begin] == mem[begin..p] && rest[p - begin + 1..] == mem[p + 1..];
  }

  /** The loop of build_whitelist over the block. */
  method ParseBlock(shared: Name) returns (white: seq<Name>)
    ensures white == AllKept(Remaining(shared, 0, 0))
  {
    white := [];
    ghost var raw: seq<Name> := [];
    var begin, p := 0, 0;
    while p != |shared|
      invariant 0 <= begin <= p <= |shared|
      invariant raw + Remaining(shared, begin, p) == Remaining(shared, 0, 0)
      invariant forall i :: begin <= i < p ==> shared[i] != NUL
      invariant white == AllKept(raw)
      decreases |shared| - p
    {
      if shared[p] == NUL {
        // an empty string ends the list
        if begin == p {
          assert raw == Remaining(shared, 0, 0);
          return;
        }
        white := PushKept(white, shared[begin..p], raw);
        raw := raw + [shared[begin..p]];
        begin := p + 1;
      }
      p := p + 1;
    }
    assert raw == Remaining(shared, 0, 0);
  }

  class Filter {
    var built: bool
    var white: seq<Name>
    var bootBlack: seq<Name>

    constructor ()
      ensures !built && white == [] && bootBlack == []
    {
      built, white, bootBlack := false, [], [];
    }

    /** build_whitelist: a second call does nothing. */
    method BuildWhitelist(shared: Name) returns (ok: bool)
      modifies this
      ensures built && bootBlack == old(bootBlack)
      ensures old(built) ==> ok && white == old(white)
      ensures !old(built) ==> white == AllKept(MultiSz(shared)) && (ok <==> MultiSz(shared) != [])
    {
      if built {
        return true;
      }
      built := true;
      white := ParseBlock(shared);
      RemainingIsMultiSz(shared, 0, 0);
      assert shared[0..] == shared;
      ok := white != [];
    }

    /** The matching loop of filter_boot_drivers, over the comparison that
        equal_filenames computes. */
    method MatchBootDrivers() returns (ghost taken: (seq<Name>, seq<Name>))
      modifies this
      ensures built == old(built)
      ensures ListMatching.Difference(SameFile, BlackKey, WhiteKey, old(bootBlack), old(white), bootBlack, white)
      ensures bootBlack == ListMatching.LeftOf(BlackKey, old(bootBlack), WhiteKey, old(white))
      ensures white == ListMatching.LeftOf(WhiteKey, old(white), BlackKey, old(bootBlack))
      ensures ListMatching.Paired(SameFile, taken.0, taken.1)
      ensures |old(bootBlack)| == |bootBlack| + |taken.0| && |old(white)| == |white| + |taken.1|
    {
      ghost var kept;
      bootBlack, white, taken, kept := ListMatching.RemoveMatches(bootBlack, white, SameFile, BlackKey, WhiteKey);
    }
  }

  /** The keys of equal_filenames: anything but the empty name on the left, a
      name that does not end in a separator on the right. */
  function BlackKey(b: Name): Option<Name> {
    if b == [] then None else Some(Key(b))
  }

  function WhiteKey(w: Name): Option<Name> {
    if Proper(w) then Some(Key(w)) else None
  }

  /** From the launcher's list to the driver's, through the block as it ships.
      When the launcher accepts the list, the driver gets one entry for every name
      exactly when the list covers the signature and fits the block, and then the
      entries are the names.  What does not fit the block is written behind it. */
  method ThroughImage(names: seq<Name>, image: array<int>, filter: Filter) returns (accepted: bool, ok: bool)
    requires forall n :: n in names ==> Storable(n)
    requires |Serialised(names)| <= SHARED_DATA_SIZE ==> |Serialised(names)| <= image.Length
    requires BLOCK_CHARS <= image.Length && ShippedBlock(image[..BLOCK_CHARS])
    requires !filter.built
    modifies image, filter
    ensures accepted <==> |Serialised(names)| <= 65536
    ensures !accepted ==> image[..] == old(image[..]) && filter.white == old(filter.white) && !filter.built
    ensures accepted ==> (|filter.white| == |names| <==> 65 <= |Serialised(names)| <= 32768)
    ensures accepted && 65 <= |Serialised(names)| <= 32768 ==>
              filter.white == AllKept(AllWidened(names))
    ensures accepted ==>
              var list := Serialised(names);
              image[BLOCK_CHARS..] == if |list| <= BLOCK_CHARS then old(image[..])[BLOCK_CHARS..]
                                      else WidenedName(list[BLOCK_CHARS..]) + old(image[..])[|list|..]
    ensures filter.bootBlack == old(filter.bootBlack)
    ensures ok <==> accepted && filter.white != []
  {
    ghost var was := image[..];
    var list := SerialiseList(names);
    accepted := BuildDriverImage(list, image);
    ok := false;
    if accepted {
      assert image[..] == WidenedName(list) + was[|list|..];
      AroundBlock(list, was, image[..]);
      assert image[..BLOCK_CHARS] == image[..][..BLOCK_CHARS] && image[BLOCK_CHARS..] == image[..][BLOCK_CHARS..];
      assert was[..BLOCK_CHARS] == old(image[..BLOCK_CHARS]);
      ok := filter.BuildWhitelist(image[..BLOCK_CHARS]);
      ShippedRoundTrip(names, was);
    }
  }

  /** What a written list leaves in the block and behind it. */
  lemma AroundBlock(list: Name, was: Name, image: Name)
    requires |list| <= |was| && BLOCK_CHARS <= |was| && image == WidenedName(list) + was[|list|..]
    ensures |image| == |was| && image[..BLOCK_CHARS] == BlockAfter(list, was)
    ensures image[BLOCK_CHARS..] == if |list| <= BLOCK_CHARS then was[BLOCK_CHARS..]
                                    else WidenedName(list[BLOCK_CHARS..]) + was[|list|..]
  {
  }

  lemma {:induction false} AllWidenedLength(names: seq<Name>)
    ensures |AllWidened(names)| == |names|
  {
    if names != [] {
      AllWidenedLength(names[1..]);
    }
  }
}
