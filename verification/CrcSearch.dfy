/** nxpsc_search_crc_pos: where does the payload of a deciphered answer end? */
module CrcSearch {
  import opened ByteStrings
  import opened Crc

  /** Length after dropping trailing zeros, but never below one byte. */
  function ContentEnd(data: Bytes): (e: nat)
    requires |data| > 0
    ensures 0 < e <= |data|
    ensures forall i | e <= i < |data| :: data[i] == 0
    ensures e == 1 || data[e - 1] != 0
  {
    if |data| > 1 && data[|data| - 1] == 0 then ContentEnd(data[..|data| - 1]) else |data|
  }

  /** The two checksums: CRC16 over the payload, CRC32 over payload || status. */
  function Checksum(w: Width, payload: Bytes, status: byte): (c: Bytes)
    ensures |c| == Size(w)
  {
    CrcOf(w, if w == W32 then payload + [status] else payload)
  }

  predicate Matches(w: Width, data: Bytes, status: byte, k: nat) {
    k + Size(w) <= |data| && k <= MAX_RESPONSE
    && Checksum(w, data[..k], status) == data[k..k + Size(w)]
  }

  /** The least matching position in [lo, hi], 0 if there is none. */
  function LeastMatch(w: Width, data: Bytes, status: byte, lo: nat, hi: int): (k: nat)
    requires lo > 0
    ensures k != 0 ==> lo <= k <= hi && Matches(w, data, status, k)
    ensures forall j | lo <= j <= hi && Matches(w, data, status, j) :: 0 < k <= j
    decreases hi - lo + 1
  {
    if lo > hi then 0
    else if Matches(w, data, status, lo) then lo
    else LeastMatch(w, data, status, lo + 1, hi)
  }

  /** What the search returns: the least matching position among the last
      Size + 2 ones, counted from the end of the content. */
  function CrcPos(w: Width, data: Bytes, status: byte): (k: nat)
    ensures k != 0 ==> Matches(w, data, status, k)
  {
    if |data| < Size(w) || ContentEnd(data) < Size(w) then 0
    else
      var e := ContentEnd(data);
      LeastMatch(w, data, status, Max(1, e - Size(w) - 1), e)
  }

  /** The comparison in the body of the search. */
  method CompareAt(w: Width, data: Bytes, status: byte, candidate: nat) returns (same: bool)
    requires candidate + Size(w) <= |data|
    ensures same <==> Checksum(w, data[..candidate], status) == data[candidate..candidate + Size(w)]
  {
    hide CrcOf;
    var size := Size(w);
    var crc := Calloc(4);
    if size == 4 {
      WriteCrc32(data[..candidate] + [status], crc, 0);
    } else {
      WriteCrc16(data[..candidate], crc, 0);
    }
    assert crc[..size] == Checksum(w, data[..candidate], status);
    same := crc[..size] == data[candidate..candidate + size];
  }

  method StripZeros(data: Bytes) returns (pos: nat)
    requires |data| > 0
    ensures pos == ContentEnd(data)
  {
    pos := |data| - 1;
    while pos > 0 && data[pos] == 0
      invariant 0 <= pos < |data|
      invariant ContentEnd(data) == ContentEnd(data[..pos + 1])
    {
      assert data[..pos + 1][..pos] == data[..pos];
      pos := pos - 1;
    }
    pos := pos + 1;
  }

  lemma NoneYet(w: Width, data: Bytes, status: byte, hi: nat)
    ensures LeastMatch(w, data, status, hi + 1, hi) == 0
  {}

  lemma OneLower(w: Width, data: Bytes, status: byte, lo: nat, hi: nat)
    requires 0 < lo <= hi
    ensures LeastMatch(w, data, status, lo, hi)
         == if Matches(w, data, status, lo) then lo else LeastMatch(w, data, status, lo + 1, hi)
  {}

  method SearchCrcPos(data: Bytes, status: byte, w: Width) returns (found: nat)
    ensures found == CrcPos(w, data, status)
  {
    hide Checksum, ContentEnd, LeastMatch;
    var size := Size(w);
    if |data| < size {
      return 0;
    }
    var pos := StripZeros(data);
    if pos < size {
      return 0;
    }
    found := 0;
    var i := 0;
    NoneYet(w, data, status, pos);
    while i < size + 2
      invariant 0 <= i <= size + 2 && i <= pos
      invariant found == LeastMatch(w, data, status, pos - i + 1, pos)
      decreases size + 2 - i
    {
      if i > pos || pos - i == 0 {
        break;
      }
      var candidate := pos - i;
      OneLower(w, data, status, candidate, pos);
      i := i + 1;
      if candidate + size > |data| || candidate + 1 > MAX_RESPONSE + 1 {
        continue;
      }
      var same := CompareAt(w, data, status, candidate);
      if same {
        found := candidate;
      }
    }
  }

  //--------------------------------------------------------------------------
  // when the search finds the payload
  //--------------------------------------------------------------------------

  lemma ContentEndOf(a: Bytes, z: nat)
    requires |a| > 0 && a[|a| - 1] != 0
    ensures ContentEnd(a + Zeros(z)) == |a|
  {
    var data := a + Zeros(z);
    var e := ContentEnd(data);
    assert data[|a| - 1] != 0;
    assert forall i | |a| <= i < |data| :: data[i] == 0;
  }

  /** With an explicit 0x80 after the checksum the search is exact, for both
      checksums and whatever bytes the payload ends in. */
  lemma ExactWithPadByte(w: Width, d: Bytes, status: byte, z: nat)
    requires 0 < |d| <= MAX_RESPONSE
    ensures CrcPos(w, d + Checksum(w, d, status) + [0x80] + Zeros(z), status) == |d|
  {
    hide Checksum;
    var a := d + Checksum(w, d, status) + [0x80];
    var data := a + Zeros(z);
    ContentEndOf(a, z);
    assert data[..|d|] == d && data[|d|..|d| + Size(w)] == Checksum(w, d, status);
    assert Matches(w, data, status, |d|);
  }
}
