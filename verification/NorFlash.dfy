/** A NOR flash: programming can only clear bits, an erased byte is 0xFF. */
module NorFlash {
  import opened Iso14229

  /** What the controller does with a write: it succeeds, or it fails and leaves a partial program behind.
      Bit b of byte i of a failed write is left unprogrammed when the residue has that bit set. */
  datatype Fault = NoFault | Fault(residue: seq<byte>)

  function Residue(fault: Fault, i: nat): byte
  {
    if fault.NoFault? then 0 else if i < |fault.residue| then fault.residue[i] else 0xFF
  }

  function Programmed(f: seq<byte>, at: nat, data: seq<byte>): (r: seq<byte>)
    requires at + |data| <= |f|
    ensures |r| == |f|
  {
    seq(|f|, i requires 0 <= i < |f| => if at <= i < at + |data| then f[i] & data[i - at] else f[i])
  }

  /** A cell some of whose programming happened: no bit has been set, none is cleared beyond what d asks. */
  predicate TornCell(f: byte, g: byte, d: byte)
  {
    g | f == f && g & (f & d) == f & d
  }

  /** g is what any partial programming of data at `at` may leave of f. */
  ghost predicate Torn(f: seq<byte>, g: seq<byte>, at: nat, data: seq<byte>)
  {
    && at + |data| <= |f| == |g|
    && (forall i :: 0 <= i < |f| && !(at <= i < at + |data|) ==> g[i] == f[i])
    && (forall i :: at <= i < at + |data| ==> TornCell(f[i], g[i], data[i - at]))
  }

  /** Every cell of the image's place still has each bit set that the image needs there. */
  ghost predicate Programmable(f: seq<byte>, at: nat, image: seq<byte>)
  {
    && at + |image| <= |f|
    && (forall i :: at <= i < at + |image| ==> f[i] & image[i - at] == image[i - at])
  }

  ghost predicate ErasedFrom(f: seq<byte>, at: nat, n: nat)
  {
    at + n <= |f| && forall i :: at <= i < at + n ==> f[i] == 0xFF
  }

  lemma ByteFacts(f: byte, g: byte, d: byte)
    ensures 0xFF & f == f && TornCell(f, f & d, d)
    ensures TornCell(f, g, d) ==> g & d == f & d
    ensures TornCell(f, g, d) && f & d == d ==> g & d == d
  {
  }

  /** Resending data that failed part way has the same end result as sending it once. */
  lemma ResendAfterTorn(f: seq<byte>, g: seq<byte>, at: nat, data: seq<byte>)
    requires Torn(f, g, at, data)
    ensures Programmed(g, at, data) == Programmed(f, at, data)
  {
    forall i | at <= i < at + |data|
      ensures g[i] & data[i - at] == f[i] & data[i - at]
    {
      assert TornCell(f[i], g[i], data[i - at]);
      ByteFacts(f[i], g[i], data[i - at]);
    }
  }

  lemma ProgrammedIsTorn(f: seq<byte>, at: nat, data: seq<byte>)
    requires at + |data| <= |f|
    ensures Torn(f, Programmed(f, at, data), at, data)
  {
    forall i | at <= i < at + |data|
      ensures TornCell(f[i], f[i] & data[i - at], data[i - at])
    {
      ByteFacts(f[i], 0, data[i - at]);
    }
  }

  lemma TornComposes(f: seq<byte>, m: seq<byte>, g: seq<byte>, at: nat, data: seq<byte>)
    requires Torn(f, m, at, data) && Torn(m, g, at, data)
    ensures Torn(f, g, at, data)
  {
    forall i | at <= i < at + |data|
      ensures TornCell(f[i], g[i], data[i - at])
    {
      assert TornCell(f[i], m[i], data[i - at]) && TornCell(m[i], g[i], data[i - at]);
      TornCells(f[i], m[i], g[i], data[i - at]);
    }
  }

  lemma TornCells(f: byte, m: byte, g: byte, d: byte)
    requires TornCell(f, m, d) && TornCell(m, g, d)
    ensures TornCell(f, g, d)
  {
  }

  lemma PaddingCell(f: byte, g: byte)
    ensures f & 0xFF == f
    ensures TornCell(f, g, 0xFF) ==> g == f
  {
  }

  /** Tearing a part of the data, or a part of it followed by padding, tears the data. */
  lemma TornPart(f: seq<byte>, g: seq<byte>, at: nat, data: seq<byte>, from: nat, part: seq<byte>)
    requires from <= |data| && at + |data| <= |f| && Torn(f, g, at + from, part)
    requires forall k :: 0 <= k < |part| ==> part[k] == if from + k < |data| then data[from + k] else 0xFF
    ensures Torn(f, g, at, data)
  {
    forall i | 0 <= i < |f|
      ensures !(at <= i < at + |data|) ==> g[i] == f[i]
      ensures at <= i < at + |data| ==> TornCell(f[i], g[i], data[i - at])
    {
      var k := i - at - from;
      if 0 <= k < |part| {
        assert TornCell(f[i], g[i], part[k]);
        PaddingCell(f[i], g[i]);
      } else {
        assert g[i] == f[i];
        if at <= i < at + |data| {
          KeptCell(f[i], data[i - at]);
        }
      }
    }
  }

  lemma KeptCell(f: byte, d: byte)
    ensures TornCell(f, f, d)
  {
  }

  lemma ErasedIsProgrammable(f: seq<byte>, at: nat, image: seq<byte>)
    requires ErasedFrom(f, at, |image|)
    ensures Programmable(f, at, image)
  {
    forall i | at <= i < at + |image|
      ensures f[i] & image[i - at] == image[i - at]
    {
      ByteFacts(image[i - at], 0, 0);
    }
  }

  function WrittenCell(f: byte, d: byte, residue: byte): byte
  {
    f & (d | residue)
  }

  /** What a write leaves behind, residue and all. */
  function Written(f: seq<byte>, at: nat, data: seq<byte>, fault: Fault): (r: seq<byte>)
    requires at + |data| <= |f|
    ensures |r| == |f|
  {
    seq(|f|, i requires 0 <= i < |f| =>
      if at <= i < at + |data| then WrittenCell(f[i], data[i - at], Residue(fault, i - at)) else f[i])
  }

  lemma WrittenIsTorn(f: seq<byte>, at: nat, data: seq<byte>, fault: Fault)
    requires at + |data| <= |f|
    ensures Torn(f, Written(f, at, data, fault), at, data)
    ensures fault.NoFault? ==> Written(f, at, data, fault) == Programmed(f, at, data)
  {
    forall i | at <= i < at + |data|
      ensures var g := WrittenCell(f[i], data[i - at], Residue(fault, i - at));
              && TornCell(f[i], g, data[i - at])
              && (fault.NoFault? ==> g == f[i] & data[i - at])
    {
      ResidueFacts(f[i], data[i - at], Residue(fault, i - at));
    }
  }

  lemma ResidueFacts(f: byte, d: byte, r: byte)
    ensures TornCell(f, WrittenCell(f, d, r), d)
    ensures r == 0 ==> WrittenCell(f, d, r) == f & d
  {
  }

  method ProgramCells(cells: array<byte>, at: nat, data: seq<byte>, fault: Fault)
    requires at + |data| <= cells.Length
    modifies cells
    ensures cells[..] == Written(old(cells[..]), at, data, fault)
  {
    ghost var before := cells[..];
    var i := 0;
    while i < |data|
      invariant 0 <= i <= |data|
      invariant forall k :: 0 <= k < i ==> cells[at + k] == WrittenCell(before[at + k], data[k], Residue(fault, k))
      invariant forall k :: 0 <= k < cells.Length && !(at <= k < at + i) ==> cells[k] == before[k]
    {
      cells[at + i] := WrittenCell(cells[at + i], data[i], Residue(fault, i));
      i := i + 1;
    }
    forall k | 0 <= k < cells.Length
      ensures cells[k] == Written(before, at, data, fault)[k]
    {
      if at <= k < at + |data| {
        assert cells[k] == cells[at + (k - at)];
      }
    }
  }

  /** The controller's write, in place. Its callers owe it whole write blocks; it refuses to run past the end. */
  method FlashWrite(cells: array<byte>, ghost writeBlock: nat, at: nat, data: seq<byte>, fault: Fault)
    returns (ok: bool)
    requires writeBlock > 0 && |data| % writeBlock == 0 && data != []
    modifies cells
    ensures ok <==> fault.NoFault? && at + |data| <= cells.Length
    ensures ok ==> cells[..] == Programmed(old(cells[..]), at, data)
    ensures !ok && at + |data| <= cells.Length ==> Torn(old(cells[..]), cells[..], at, data)
    ensures at + |data| > cells.Length ==> cells[..] == old(cells[..])
  {
    if at + |data| > cells.Length {
      return false;
    }
    WrittenIsTorn(cells[..], at, data, fault);
    ProgramCells(cells, at, data, fault);
    ok := fault.NoFault?;
  }
}
