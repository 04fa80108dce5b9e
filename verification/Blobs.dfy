/** Flattened device trees: the structure block as records, the strings block and the reserve map. */
module Blobs {
  import opened Bytes

  /** Token kinds of section 5.4.1 of the Devicetree Specification. */
  datatype Kind = BeginNode | Property | EndNode | Nop | End

  /**
   * A pointer to one token of a structure block, with the fields of the token that never change:
   * the name after a begin-node token and the name offset of a property.
   */
  datatype FdtTag = FdtTag(blob: nat, pos: nat, kind: Kind, name: string, nameoff: nat)

  datatype Reserve = Reserve(address: nat, size: nat)

  /** A finished blob. Property values are not part of it: they are overwritten in place. */
  datatype Fdt = Fdt(
    blob: nat,
    totalsize: nat,
    reserve: seq<Reserve>,
    structure: seq<FdtTag>,
    strings: seq<byte>)
  {
    /** `fdt_string`. */
    function String(off: nat): string {
      if off <= |strings| then CString(strings[off..]) else ""
    }
  }

  /** A strings block is a sequence of terminated strings. */
  ghost predicate Terminated(fdt: Fdt) {
    fdt.strings != [] ==> fdt.strings[|fdt.strings| - 1] == 0
  }

  /** `fdt_num_mem_rsv`: entries before the first one of size 0. */
  function NumMemRsv(entries: seq<Reserve>): (n: nat)
    ensures n <= |entries|
  {
    if entries == [] || entries[0].size == 0 then 0 else 1 + NumMemRsv(entries[1..])
  }

  /** An entry of size 0 ends the list. */
  lemma {:induction false} NumMemRsvEnds(entries: seq<Reserve>, last: Reserve)
    requires last.size == 0 && forall i | 0 <= i < |entries| :: entries[i].size > 0
    ensures NumMemRsv(entries + [last]) == |entries|
    decreases |entries|
  {
    if entries != [] {
      assert (entries + [last])[1..] == entries[1..] + [last];
      NumMemRsvEnds(entries[1..], last);
    }
  }

  /** The values of all properties of all blobs in memory. */
  type Values = map<FdtTag, seq<byte>>

  /** The memory that holds the blobs; values are overwritten in place. */
  class BlobMemory {
    var values: Values

    constructor (values: Values)
      ensures this.values == values
    {
      this.values := values;
    }
  }

  /** A `char *` into the strings block of a blob. */
  datatype StrPtr = StrPtr(fdt: Fdt, off: nat) {
    function Text(): string {
      fdt.String(off)
    }
  }
}
