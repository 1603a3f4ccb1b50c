/** The layout of .got (elf64-x86-64, `elf_x86_64_allocate_dynrelocs` and `elf_x86_64_size_dynamic_sections`): entries are
    handed out at the end of the section, one symbol after the other. */
module GotSection {

  /** What the link stores for one symbol: where its entry begins, negative for none, and how many bytes it needs. */
  datatype Entry = Entry(offset: int, bytes: nat)

  /** The bytes an entry of an access type needs: two words for the general dynamic model, alone (2) or with a descriptor
      (6), and one otherwise. */
  function EntryBytes(tlsType: bv8): nat { if tlsType == 2 || tlsType == 6 then 16 else 8 }

  /** The bytes taken by the entries among the first `n`. */
  function Taken(entries: seq<Entry>, n: nat): nat
    requires n <= |entries|
  {
    if n == 0 then 0 else Taken(entries, n - 1) + if entries[n - 1].offset >= 0 then entries[n - 1].bytes else 0
  }

  /** Every entry begins where those before it end. */
  ghost predicate Packed(entries: seq<Entry>, size: nat) {
    && (forall k :: 0 <= k < |entries| && entries[k].offset >= 0 ==> entries[k].offset == Taken(entries, k))
    && size == Taken(entries, |entries|)
  }

  predicate Apart(e: Entry, f: Entry) {
    e.offset + e.bytes <= f.offset || f.offset + f.bytes <= e.offset
  }

  predicate Covered(entries: seq<Entry>, b: int) {
    exists k :: 0 <= k < |entries| && 0 <= entries[k].offset <= b < entries[k].offset + entries[k].bytes
  }

  /** Every byte of the section belongs to exactly one entry, and no entry reaches beyond it. */
  ghost predicate Tiled(entries: seq<Entry>, size: nat) {
    && (forall k :: 0 <= k < |entries| && entries[k].offset >= 0 ==> entries[k].offset + entries[k].bytes <= size)
    && (forall j, k :: 0 <= j < k < |entries| && entries[j].offset >= 0 && entries[k].offset >= 0 ==>
         Apart(entries[j], entries[k]))
    && (forall b :: 0 <= b < size ==> Covered(entries, b))
  }

  lemma {:induction false} TakenGrows(entries: seq<Entry>, j: nat, k: nat)
    requires j <= k <= |entries|
    ensures Taken(entries, j) <= Taken(entries, k)
    decreases k
  {
    if j < k {
      TakenGrows(entries, j, k - 1);
    }
  }

  lemma {:induction false} TakenStays(entries: seq<Entry>, e: Entry, n: nat)
    requires n <= |entries|
    ensures Taken(entries + [e], n) == Taken(entries, n)
  {
    if n > 0 {
      TakenStays(entries, e, n - 1);
    }
  }

  /** One more symbol: its entry lies at the old end of the section, or it has none. */
  lemma PackedNext(entries: seq<Entry>, size: nat, e: Entry)
    requires Packed(entries, size) && (e.offset >= 0 ==> e.offset == size)
    ensures Packed(entries + [e], size + if e.offset >= 0 then e.bytes else 0)
  {
    forall n | 0 <= n <= |entries|
      ensures Taken(entries + [e], n) == Taken(entries, n)
    {
      TakenStays(entries, e, n);
    }
  }

  lemma {:induction false} FindEntry(entries: seq<Entry>, b: nat, n: nat) returns (k: nat)
    requires n <= |entries| && b < Taken(entries, n)
    ensures k < n && entries[k].offset >= 0 && Taken(entries, k) <= b < Taken(entries, k) + entries[k].bytes
  {
    if b < Taken(entries, n - 1) {
      k := FindEntry(entries, b, n - 1);
    } else {
      k := n - 1;
    }
  }

  /** Packed entries are apart, lie inside the section and fill it. */
  lemma PackedIsTiled(entries: seq<Entry>, size: nat)
    requires Packed(entries, size)
    ensures Tiled(entries, size)
  {
    forall k | 0 <= k < |entries| && entries[k].offset >= 0
      ensures entries[k].offset + entries[k].bytes <= size
    {
      TakenGrows(entries, k + 1, |entries|);
    }
    forall j, k | 0 <= j < k < |entries| && entries[j].offset >= 0 && entries[k].offset >= 0
      ensures Apart(entries[j], entries[k])
    {
      TakenGrows(entries, j + 1, k);
    }
    forall b | 0 <= b < size
      ensures Covered(entries, b)
    {
      var k := FindEntry(entries, b, |entries|);
    }
  }
}
