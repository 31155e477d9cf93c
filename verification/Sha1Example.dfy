/** The example of section A.1 of FIPS 180-2, the first in the self-test of
    ntl/crypto/sha.hxx: the digest of "abc".  It ties what the reference
    `Sha1Spec` computes to published values, through every word of the schedule. */
module Sha1Example {
  import opened BlockChain
  import opened Sha1Spec
  import Code = Sha1

  const ABC: seq<Byte> := [0x61, 0x62, 0x63]

  /** The one padded block. */
  const BLOCK: Block := ABC + [0x80] + seq(59, _ => 0) + [0x18]

  predicate Has(m: Block, t: nat, w: Word) { W(m, t) == w }

  /** The words of the block. */
  predicate HasWords(m: Block) {
    && Has(m, 0, 0x61626380) && Has(m, 1, 0x00000000) && Has(m, 2, 0x00000000) && Has(m, 3, 0x00000000)
    && Has(m, 4, 0x00000000) && Has(m, 5, 0x00000000) && Has(m, 6, 0x00000000) && Has(m, 7, 0x00000000)
    && Has(m, 8, 0x00000000) && Has(m, 9, 0x00000000) && Has(m, 10, 0x00000000) && Has(m, 11, 0x00000000)
    && Has(m, 12, 0x00000000) && Has(m, 13, 0x00000000) && Has(m, 14, 0x00000000) && Has(m, 15, 0x00000018)
  }

  /** W_16 to W_47. */
  predicate HasEarly(m: Block) {
    && Has(m, 16, 0xC2C4C700) && Has(m, 17, 0x00000000) && Has(m, 18, 0x00000030) && Has(m, 19, 0x85898E01)
    && Has(m, 20, 0x00000000) && Has(m, 21, 0x00000060) && Has(m, 22, 0x0B131C03) && Has(m, 23, 0x00000030)
    && Has(m, 24, 0x85898EC1) && Has(m, 25, 0x16263806) && Has(m, 26, 0x00000000) && Has(m, 27, 0x00000180)
    && Has(m, 28, 0x2C4C700C) && Has(m, 29, 0x000000F0) && Has(m, 30, 0x93AFB507) && Has(m, 31, 0x5898E048)
    && Has(m, 32, 0x8E9A9202) && Has(m, 33, 0x00000600) && Has(m, 34, 0xB131C0F0) && Has(m, 35, 0x16263BC6)
    && Has(m, 36, 0x4EBED41E) && Has(m, 37, 0x626380A1) && Has(m, 38, 0x16263806) && Has(m, 39, 0x000018C0)
    && Has(m, 40, 0xD2E138C4) && Has(m, 41, 0x00000F00) && Has(m, 42, 0x3AFB5079) && Has(m, 43, 0x898E04E5)
    && Has(m, 44, 0xE2BA3C2B) && Has(m, 45, 0x000060C0) && Has(m, 46, 0x053A37CD) && Has(m, 47, 0x74458547)
  }

  /** W_48 to W_79. */
  predicate HasLate(m: Block) {
    && Has(m, 48, 0xDA9415ED) && Has(m, 49, 0x26380A16) && Has(m, 50, 0x626383A1) && Has(m, 51, 0x4EBF54DE)
    && Has(m, 52, 0x3835B44B) && Has(m, 53, 0x0000F600) && Has(m, 54, 0x1E84C7A3) && Has(m, 55, 0x98E04D98)
    && Has(m, 56, 0x651D16A0) && Has(m, 57, 0x62658CA1) && Has(m, 58, 0x458544D6) && Has(m, 59, 0x44584CB7)
    && Has(m, 60, 0x7BA06619) && Has(m, 61, 0x6380AEA2) && Has(m, 62, 0x0AE55269) && Has(m, 63, 0x627B49A1)
    && Has(m, 64, 0x7CD45C9D) && Has(m, 65, 0x000F0000) && Has(m, 66, 0xFB50753A) && Has(m, 67, 0xEC6765E8)
    && Has(m, 68, 0xBA3C2BE2) && Has(m, 69, 0x0060C000) && Has(m, 70, 0x3A37CD05) && Has(m, 71, 0x458546F4)
    && Has(m, 72, 0xB8599DD6) && Has(m, 73, 0x380A1A26) && Has(m, 74, 0x01E02203) && Has(m, 75, 0xE7CC3456)
    && Has(m, 76, 0xE6E60B69) && Has(m, 77, 0x00F60A00) && Has(m, 78, 0x5795EF4F) && Has(m, 79, 0x822E0879)
  }

  predicate HasSchedule(m: Block) { HasWords(m) && HasEarly(m) && HasLate(m) }

  lemma Words()
    ensures HasWords(BLOCK)
  {
  }

  lemma Early(m: Block)
    requires HasWords(m)
    ensures HasEarly(m)
  {
  }

  lemma Late(m: Block)
    requires HasEarly(m)
    ensures HasLate(m)
  {
  }

  lemma Rounds20(m: Block)
    requires HasSchedule(m)
    ensures Rounds(INITIAL, m, 20) == State(0xFD9E1D7D, 0xDC64901D, 0x20AA99CA, 0xD3A49608, 0xC82F758B)
  {
    assert Rounds(INITIAL, m, 1) == State(0x0116FC33, 0x67452301, 0x7BF36AE2, 0x98BADCFE, 0x10325476);
    assert Rounds(INITIAL, m, 2) == State(0x8990536D, 0x0116FC33, 0x59D148C0, 0x7BF36AE2, 0x98BADCFE);
    assert Rounds(INITIAL, m, 4) == State(0xCDD8E11B, 0xA1390F08, 0x626414DB, 0xC045BF0C, 0x59D148C0);
    assert Rounds(INITIAL, m, 6) == State(0x3FC7CA40, 0xCFD499DE, 0xF3763846, 0x284E43C2, 0x626414DB);
    assert Rounds(INITIAL, m, 8) == State(0x9E8C07D4, 0x993E30C1, 0x0FF1F290, 0xB3F52677, 0xF3763846);
    assert Rounds(INITIAL, m, 10) == State(0x8351F929, 0x4B6AE328, 0x27A301F5, 0x664F8C30, 0x0FF1F290);
    assert Rounds(INITIAL, m, 12) == State(0x63188FE4, 0xFBDA9E89, 0x60D47E4A, 0x12DAB8CA, 0x27A301F5);
    assert Rounds(INITIAL, m, 14) == State(0x9128F695, 0x4607B664, 0x18C623F9, 0x7EF6A7A2, 0x60D47E4A);
    assert Rounds(INITIAL, m, 16) == State(0x20BDD62F, 0x196BEE77, 0x644A3DA5, 0x1181ED99, 0x18C623F9);
    assert Rounds(INITIAL, m, 18) == State(0x82AA6728, 0x4E925823, 0xC82F758B, 0xC65AFB9D, 0x644A3DA5);
  }

  lemma Rounds40(m: Block)
    requires HasSchedule(m)
    ensures Rounds(INITIAL, m, 40) == State(0x32DE1CBA, 0x4C986405, 0xF718E5CF, 0x03D447F6, 0xF72EEC32)
  {
    Rounds20(m);
    assert Rounds(INITIAL, m, 22) == State(0x33A23BFC, 0x1A37B0CA, 0x7F67875F, 0x77192407, 0x20AA99CA);
    assert Rounds(INITIAL, m, 24) == State(0xD541F12D, 0x21283486, 0x0CE88EFF, 0x868DEC32, 0x7F67875F);
    assert Rounds(INITIAL, m, 26) == State(0x48413BA4, 0xC7567DC6, 0x75507C4B, 0x884A0D21, 0x0CE88EFF);
    assert Rounds(INITIAL, m, 28) == State(0x4AA84D97, 0xBE35FBD5, 0x12104EE9, 0xB1D59F71, 0x75507C4B);
    assert Rounds(INITIAL, m, 30) == State(0xC5FBAF5D, 0x8370B52E, 0xD2AA1365, 0x6F8D7EF5, 0x12104EE9);
    assert Rounds(INITIAL, m, 32) == State(0x3B845D33, 0x1267B407, 0x717EEBD7, 0xA0DC2D4B, 0xD2AA1365);
    assert Rounds(INITIAL, m, 34) == State(0x2C0EBC11, 0x046FAA0A, 0xCEE1174C, 0xC499ED01, 0x717EEBD7);
    assert Rounds(INITIAL, m, 36) == State(0xDCBBB0CB, 0x21796AD4, 0x4B03AF04, 0x811BEA82, 0xCEE1174C);
    assert Rounds(INITIAL, m, 38) == State(0xDC63973F, 0x0F511FD8, 0xF72EEC32, 0x085E5AB5, 0x4B03AF04);
  }

  lemma Rounds60(m: Block)
    requires HasSchedule(m)
    ensures Rounds(INITIAL, m, 60) == State(0x3F52DE5A, 0x09D785FD, 0x3498BFD4, 0xF211824F, 0xD79915AB)
  {
    Rounds40(m);
    assert Rounds(INITIAL, m, 42) == State(0x970A0D5C, 0xFC87DEDF, 0x8CB7872E, 0x53261901, 0xF718E5CF);
    assert Rounds(INITIAL, m, 44) == State(0xEE1B1AAF, 0x7F193DC5, 0x25C28357, 0xFF21F7B7, 0x8CB7872E);
    assert Rounds(INITIAL, m, 46) == State(0x1C51E1F2, 0x40F28E09, 0xFB86C6AB, 0x5FC64F71, 0x25C28357);
    assert Rounds(INITIAL, m, 48) == State(0xBEAD02CA, 0xA01B846C, 0x8714787C, 0x503CA382, 0xFB86C6AB);
    assert Rounds(INITIAL, m, 50) == State(0x120731C5, 0xBAF39337, 0xAFAB40B2, 0x2806E11B, 0x8714787C);
    assert Rounds(INITIAL, m, 52) == State(0x3847AD66, 0x641DB2CE, 0x4481CC71, 0xEEBCE4CD, 0xAFAB40B2);
    assert Rounds(INITIAL, m, 54) == State(0x27E9F1D8, 0xE490436D, 0x8E11EB59, 0x99076CB3, 0x4481CC71);
    assert Rounds(INITIAL, m, 56) == State(0x5E6456AF, 0x7B71F76D, 0x09FA7C76, 0x792410DB, 0x8E11EB59);
    assert Rounds(INITIAL, m, 58) == State(0xD262FF50, 0xC846093F, 0xD79915AB, 0x5EDC7DDB, 0x09FA7C76);
  }

  lemma Rounds80(m: Block)
    requires HasSchedule(m)
    ensures Rounds(INITIAL, m, 80) == State(0x42541B35, 0x5738D5E1, 0x21834873, 0x681E6DF6, 0xD8FDF6AD)
  {
    Rounds60(m);
    assert Rounds(INITIAL, m, 62) == State(0x548C9CB2, 0xD756C147, 0x8FD4B796, 0x4275E17F, 0x3498BFD4);
    assert Rounds(INITIAL, m, 64) == State(0x6B61C9E1, 0xB66C020B, 0x9523272C, 0xF5D5B051, 0x8FD4B796);
    assert Rounds(INITIAL, m, 66) == State(0x101655F9, 0x19DFA7AC, 0x5AD87278, 0xED9B0082, 0x9523272C);
    assert Rounds(INITIAL, m, 68) == State(0x78DD4D2B, 0x0C3DF2B4, 0x4405957E, 0x0677E9EB, 0x5AD87278);
    assert Rounds(INITIAL, m, 70) == State(0x3F2588C2, 0x497093C0, 0xDE37534A, 0x030F7CAD, 0x4405957E);
    assert Rounds(INITIAL, m, 72) == State(0x39859DE7, 0xC199F8C7, 0x8FC96230, 0x125C24F0, 0xDE37534A);
    assert Rounds(INITIAL, m, 74) == State(0x11793F6F, 0xEDB42DE4, 0xCE616779, 0xF0667E31, 0x8FC96230);
    assert Rounds(INITIAL, m, 76) == State(0x63F7DAB7, 0x5EE76897, 0xC45E4FDB, 0x3B6D0B79, 0xCE616779);
    assert Rounds(INITIAL, m, 78) == State(0x860D21CC, 0xA079B7D9, 0xD8FDF6AD, 0xD7B9DA25, 0xC45E4FDB);
  }

  lemma PaddedAbc()
    ensures ABC + Padding(3) == BLOCK
  {
  }

  /** The digest of "abc". */
  lemma Digest()
    ensures Sha1(ABC) == [
              0xA9, 0x99, 0x3E, 0x36, 0x47, 0x06, 0x81, 0x6A, 0xBA, 0x3E,
              0x25, 0x71, 0x78, 0x50, 0xC2, 0x6C, 0x9C, 0xD0, 0xD8, 0x9D]
  {
    Words();
    Early(BLOCK);
    Late(BLOCK);
    Rounds80(BLOCK);
    PaddedAbc();
    FoldBlocks(Compress, INITIAL, BLOCK);
    assert Compress(INITIAL, BLOCK) == State(0xA9993E36, 0x4706816A, 0xBA3E2571, 0x7850C26C, 0x9CD0D89D);
  }

  /** The self-test's one-block message, hashed by the code. */
  method HashAbc() returns (digest: seq<Byte>)
    ensures digest == [
              0xA9, 0x99, 0x3E, 0x36, 0x47, 0x06, 0x81, 0x6A, 0xBA, 0x3E,
              0x25, 0x71, 0x78, 0x50, 0xC2, 0x6C, 0x9C, 0xD0, 0xD8, 0x9D]
  {
    var hash := new Code.Hasher();
    hash.Hash(ABC);
    Digest();
    digest := hash.Digest();
  }
}
