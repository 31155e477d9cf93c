/** Both ends of the driver list together: what filter_boot_drivers leaves to be
    disabled when the drivers it finds are the ones the launcher listed
    (samples/zenadriver/src/launcher.cpp, samples/zenadriver/src/driver.cpp). */
module BootMatching {
  import opened Common
  import opened FileNames
  import opened DriverList
  import opened ListMatching

  /** A string of signed chars. */
  predicate Narrow(name: Name) { forall i :: 0 <= i < |name| ==> -128 <= name[i] < 128 }

  /** The key of a driver that is recognised by its own entry in the white list:
      there is a file name, all its characters are ASCII, and it is not that of a
      dump driver, whose entry was renamed. */
  predicate Recognised(key: Name) {
    && key != []
    && (forall i :: 0 <= i < |key| ==> key[i] >= 0)
    && key != Key(DUMP_ATAPI) && key != Key(DUMP_WMILIB)
  }

  lemma StorableIsBody(n: Name)
    requires Storable(n)
    ensures Body(n) == n && Body(WidenedName(n)) == WidenedName(n)
  {
    assert Widened(n[|n| - 1]) != NUL;
  }

  lemma {:induction false} WidenedSeparator(n: Name)
    requires Narrow(n)
    ensures LastIndex(WidenedName(n), BACKSLASH) == LastIndex(n, BACKSLASH)
  {
    if n != [] {
      WidenedSeparator(n[..|n| - 1]);
      assert WidenedName(n)[..|n| - 1] == WidenedName(n[..|n| - 1]);
    }
  }

  /** Widening keeps the ASCII characters of a key and moves the others out of the range of char. */
  lemma WidenedKey(n: Name)
    requires Narrow(n) && Storable(n)
    ensures |Key(WidenedName(n))| == |Key(n)|
    ensures forall i :: 0 <= i < |Key(n)| ==>
              Key(WidenedName(n))[i] == (if Key(n)[i] >= 0 then Key(n)[i] else Key(n)[i] + 65536)
    ensures forall i :: 0 <= i < |Key(n)| ==> -128 <= Key(n)[i] < 128
    ensures (forall i :: 0 <= i < |Key(n)| ==> Key(n)[i] >= 0) ==> Key(WidenedName(n)) == Key(n)
    ensures Proper(WidenedName(n)) <==> Key(n) != []
  {
    StorableIsBody(n);
    WidenedSeparator(n);
    var k := LastIndex(n, BACKSLASH) + 1;
    forall i | 0 <= i < |Key(n)|
      ensures -128 <= Key(n)[i] < 128
      ensures Key(WidenedName(n))[i] == if Key(n)[i] >= 0 then Key(n)[i] else Key(n)[i] + 65536
    {
      assert -128 <= n[k + i] < 128 && Key(n)[i] == Upper(n[k + i]);
      assert Key(WidenedName(n))[i] == Upper(Widened(n[k + i]));
    }
  }

  /** The key of such a literal is itself in upper case. */
  lemma LiteralKey(lit: Name)
    requires BACKSLASH !in lit && lit != [] && forall i :: 0 <= i < |lit| ==> 0 < lit[i] < 128
    ensures Proper(lit) && |Key(lit)| == |lit|
    ensures forall i :: 0 <= i < |lit| ==> 0 <= Key(lit)[i] < 128
  {
    assert lit[|lit| - 1] in lit;
    BaseOfBare(lit);
  }

  /** The keys of the dump drivers, and of what is left of their names. */
  lemma DumpKeys()
    ensures DumpLiteral(DUMP_ATAPI) && Proper(DUMP_ATAPI) && |Key(DUMP_ATAPI)| == 14
    ensures DumpLiteral(DUMP_WMILIB) && Proper(DUMP_WMILIB) && |Key(DUMP_WMILIB)| == 15
    ensures forall i :: 0 <= i < 14 ==> 0 <= Key(DUMP_ATAPI)[i] < 128
    ensures forall i :: 0 <= i < 15 ==> 0 <= Key(DUMP_WMILIB)[i] < 128
    ensures Recognised(Key(DUMP_ATAPI[5..])) && Recognised(Key(DUMP_WMILIB[5..]))
  {
    DumpLiterals();
    LiteralKey(DUMP_ATAPI);
    LiteralKey(DUMP_WMILIB);
    LiteralKey(DUMP_ATAPI[5..]);
    LiteralKey(DUMP_WMILIB[5..]);
  }

  /** Every entry of the white list has a recognised key, or is equal to nothing. */
  lemma EntryKey(n: Name)
    requires Narrow(n) && Storable(n)
    ensures var e := Kept(WidenedName(n));
            && (Key(n) == [] ==> !Proper(e))
            && (Proper(e) ==> Recognised(Key(e)))
            && (Recognised(Key(n)) ==> Proper(e) && Key(e) == Key(n))
  {
    var w := WidenedName(n);
    WidenedKey(n);
    if IsDump(w) {
      RenamedKey(w);
      DumpIsUnrecognised(n);
    } else {
      OtherKey(w);
    }
  }

  lemma DumpIsUnrecognised(n: Name)
    requires Narrow(n) && Storable(n) && IsDump(WidenedName(n))
    ensures Key(n) != [] && !Recognised(Key(n))
  {
    WidenedKey(n);
    DumpKeys();
  }

  lemma OtherKey(w: Name)
    requires !IsDump(w) && w != [] && forall i :: 0 <= i < |Key(w)| ==> Key(w)[i] >= 0
    ensures Key(w) != [] ==> Recognised(Key(w))
  {
    DumpKeys();
  }

  lemma RenamedKey(w: Name)
    requires IsDump(w) && NUL !in w
    ensures Key(w) == Key(DUMP_ATAPI) || Key(w) == Key(DUMP_WMILIB)
    ensures Proper(Kept(w)) && Recognised(Key(Kept(w)))
  {
    DumpKeys();
    if SameFile(w, DUMP_ATAPI) {
      RenamedFrom(w, DUMP_ATAPI);
    } else {
      RenamedFrom(w, DUMP_WMILIB);
    }
  }

  lemma RenamedFrom(w: Name, lit: Name)
    requires DumpLiteral(lit) && IsDump(w) && SameFile(w, lit) && NUL !in w
    ensures Proper(Kept(w)) && Key(Kept(w)) == Key(lit[5..])
  {
    var u := |w| - |lit| + 4;
    DumpPath(w, lit, u);
    assert Kept(w) == Erased(w, u) && Kept(w)[|Kept(w)| - 1] == w[|w| - 1];
    ProperOnRight(w, lit);
  }

  /** A file that equals a literal does not end in a separator itself. */
  lemma ProperOnRight(w: Name, lit: Name)
    requires DumpLiteral(lit) && SameFile(w, lit) && NUL !in w
    ensures Proper(w)
  {
    LiteralKey(lit);
    assert w[|w| - 1] in w;
  }

  /** A driver is the same file as its own entry exactly when its key is recognised. */
  lemma OwnEntry(n: Name)
    requires Narrow(n) && Storable(n)
    ensures SameFile(n, Kept(WidenedName(n))) <==> Recognised(Key(n))
  {
    EntryKey(n);
  }

  // ---------------------------------------------------------------- which drivers are left

  /** The drivers that their own entry does not save. */
  function Unrecognised(names: seq<Name>): seq<Name> { Others(BlackKey, Recognised, names) }

  /** A driver to be recognised has an entry of its key, and no entry has another key. */
  lemma EntryOf(n: Name, k: Name)
    requires Narrow(n) && Storable(n)
    ensures BlackKey(n) == Some(Key(n))
    ensures Recognised(k) && Key(n) == k ==> WhiteKey(Kept(WidenedName(n))) == Some(k)
    ensures !Recognised(k) ==> WhiteKey(Kept(WidenedName(n))) != Some(k)
  {
    EntryKey(n);
  }

  /** For no key the white list has fewer entries than there are drivers to be
      recognised, and for other keys it has none. */
  lemma {:induction false} EntryCounts(names: seq<Name>, k: Name)
    requires forall n :: n in names ==> Narrow(n) && Storable(n)
    ensures |AllWidened(names)| == |names|
    ensures Recognised(k) ==> Count(WhiteKey, AllKept(AllWidened(names)), k) >= Count(BlackKey, names, k)
    ensures !Recognised(k) ==> Count(WhiteKey, AllKept(AllWidened(names)), k) == 0
  {
    if names != [] {
      EntryOf(names[0], k);
      EntryCounts(names[1..], k);
      FirstEntry(names);
    }
  }

  lemma FirstEntry(names: seq<Name>)
    requires names != []
    ensures AllKept(AllWidened(names))[0] == Kept(WidenedName(names[0]))
    ensures AllKept(AllWidened(names))[1..] == AllKept(AllWidened(names[1..]))
  {
  }

  /** A name is left, after the first n, exactly if its key is not recognised. */
  lemma LeftIfUnrecognised(names: seq<Name>, n: nat)
    requires n < |names| && forall x :: x in names ==> Narrow(x) && Storable(x)
    ensures |AllWidened(names)| == |names|
    ensures BlackKey(names[n]) == Some(Key(names[n]))
    ensures Count(BlackKey, names[..n], Key(names[n])) < Count(WhiteKey, AllKept(AllWidened(names)), Key(names[n]))
       <==> Recognised(Key(names[n]))
  {
    var k := Key(names[n]);
    assert Storable(names[n]);
    EntryCounts(names, k);
    CountBefore(BlackKey, names, n, k);
  }

  /** Of the first n names the unrecognised ones are left. */
  lemma {:induction false} LeftAreOthers(names: seq<Name>, n: nat)
    requires n <= |names| && forall x :: x in names ==> Narrow(x) && Storable(x)
    ensures |AllWidened(names)| == |names|
    ensures LeftOf(BlackKey, names[..n], WhiteKey, AllKept(AllWidened(names))) == Unrecognised(names[..n])
  {
    AllWidenedLength(names);
    if n > 0 {
      assert names[..n][..n - 1] == names[..n - 1];
      LeftAreOthers(names, n - 1);
      LeftIfUnrecognised(names, n - 1);
    }
  }

  /** The launcher lists the active drivers, and the driver, which finds the same
      ones, filters them by that list.  When the list is accepted, covers the
      signature and fits the block, exactly the unrecognised drivers are left. */
  method FilterSameDrivers(names: seq<Name>, image: array<int>, filter: Filter) returns (accepted: bool, ok: bool)
    requires forall n :: n in names ==> Narrow(n) && Storable(n)
    requires |Serialised(names)| <= SHARED_DATA_SIZE ==> |Serialised(names)| <= image.Length
    requires BLOCK_CHARS <= image.Length && ShippedBlock(image[..BLOCK_CHARS])
    requires !filter.built
    modifies image, filter
    ensures 65 <= |Serialised(names)| <= 32768 ==>
              accepted && ok && filter.bootBlack == Unrecognised(names)
  {
    accepted, ok := ThroughImage(names, image, filter);
    if ok {
      filter.bootBlack := names;
      ghost var white := filter.white;
      ghost var taken := filter.MatchBootDrivers();
      if SIGNATURE_CHARS <= |Serialised(names)| <= BLOCK_CHARS {
        LeftAreOthers(names, |names|);
        assert names[..|names|] == names;
      }
    }
  }
}
