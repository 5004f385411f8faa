/** The flat record file shared by every entity store: an optional FileHeader holding the
    next id, followed by fixed-size records. A record's position is its index. */
module RecordFiles {
  import opened Wrappers
  import opened FileErrors

  /** What a write operation reports together with the records it leaves in the file. */
  datatype Written<T> = Written(code: FileErrorCode, records: seq<T>)

  /** The position of the first record satisfying `p`, or -1 when there is none. */
  function IndexWhere<T>(s: seq<T>, p: T -> bool): (r: int)
    ensures -1 <= r < |s|
    ensures 0 <= r ==> p(s[r])
    ensures forall j | 0 <= j < |s| && (r < 0 || j < r) :: !p(s[j])
  {
    if s == [] then -1
    else if p(s[0]) then 0
    else
      var k := IndexWhere(s[1..], p);
      if k < 0 then -1 else k + 1
  }

  /** Rewriting the first match of `p` with another record satisfying `p` leaves it the first
      match: the record keeps its position. */
  lemma IndexWhereAfterRewrite<T>(rs: seq<T>, p: T -> bool, x: T)
    requires 0 <= IndexWhere(rs, p) && p(x)
    ensures IndexWhere(rs[IndexWhere(rs, p) := x], p) == IndexWhere(rs, p)
  {
    var pos := IndexWhere(rs, p);
    assert p(rs[pos := x][pos]);
  }

  /** A record appended after a file in which nothing satisfies `p` is the first match. */
  lemma IndexWhereAfterAppend<T>(rs: seq<T>, p: T -> bool, x: T)
    requires IndexWhere(rs, p) < 0 && p(x)
    ensures IndexWhere(rs + [x], p) == |rs|
  {
    assert p((rs + [x])[|rs|]);
  }

  /** The record at position `i`, if `i` is a position. */
  function At<T>(s: seq<T>, i: int): (r: Option<T>)
    ensures r.Some? <==> 0 <= i < |s|
    ensures r.Some? ==> r.value == s[i]
  {
    if 0 <= i < |s| then Some(s[i]) else None
  }

  /** The records satisfying `p`, in file order. */
  function Filter<T>(s: seq<T>, p: T -> bool): (r: seq<T>)
    ensures |r| <= |s|
    ensures forall x | x in r :: x in s && p(x)
    ensures forall x | x in s && p(x) :: x in r
  {
    if s == [] then []
    else if p(s[0]) then [s[0]] + Filter(s[1..], p)
    else Filter(s[1..], p)
  }

  /** Filter distributes over concatenation, so it can be built record by record. */
  lemma {:induction false} FilterAppend<T>(s: seq<T>, x: T, p: T -> bool)
    ensures Filter(s + [x], p) == Filter(s, p) + (if p(x) then [x] else [])
  {
    if s == [] {
      assert [x][1..] == [];
    } else {
      assert (s + [x])[1..] == s[1..] + [x];
      FilterAppend(s[1..], x, p);
    }
  }

  /** Filtering one more element of a prefix. */
  lemma FilterPrefixStep<T>(s: seq<T>, i: int, p: T -> bool)
    requires 0 <= i < |s|
    ensures Filter(s[..i + 1], p) == Filter(s[..i], p) + (if p(s[i]) then [s[i]] else [])
  {
    assert s[..i + 1] == s[..i] + [s[i]];
    FilterAppend(s[..i], s[i], p);
  }

  /** Nothing is kept from a sequence none of whose records satisfies `p`. */
  lemma {:induction false} FilterNone<T>(s: seq<T>, p: T -> bool)
    requires forall x | x in s :: !p(x)
    ensures Filter(s, p) == []
  {
    if s != [] {
      assert s[0] in s;
      FilterNone(s[1..], p);
    }
  }

  /** Every key in the file is below `bound` (the header's next id). */
  ghost predicate KeysBelow<T>(rs: seq<T>, key: T -> int, bound: int) {
    forall i | 0 <= i < |rs| :: key(rs[i]) < bound
  }

  /** No two records share a key. */
  ghost predicate KeysDistinct<T>(rs: seq<T>, key: T -> int) {
    forall i, j | 0 <= i < j < |rs| :: key(rs[i]) != key(rs[j])
  }

  /** The identity discipline of a counted file: every id is below next_id and none repeats. */
  ghost predicate IdsFresh<T>(header: Option<int>, rs: seq<T>, key: T -> int) {
    header.Some? && KeysBelow(rs, key, header.value) && KeysDistinct(rs, key)
  }

  /** Appending a record that carries the id the header just issued keeps the discipline:
      that id is new, and the next one is larger than all ids in the file. */
  lemma AppendFreshId<T>(next: int, rs: seq<T>, r: T, key: T -> int)
    requires KeysBelow(rs, key, next) && KeysDistinct(rs, key)
    requires key(r) == next
    ensures forall i | 0 <= i < |rs| :: key(rs[i]) != key(r)
    ensures KeysBelow(rs + [r], key, next + 1) && KeysDistinct(rs + [r], key)
  {
  }

  /** Rewriting a record in place with one that keeps its key keeps the discipline. */
  lemma RewriteKeepsIds<T>(next: int, rs: seq<T>, pos: nat, r: T, key: T -> int)
    requires pos < |rs| && key(r) == key(rs[pos])
    requires KeysBelow(rs, key, next) && KeysDistinct(rs, key)
    ensures KeysBelow(rs[pos := r], key, next) && KeysDistinct(rs[pos := r], key)
  {
  }

  class RecordFile<T> {
    /** The FileHeader at offset 0 (its next_id), absent in header-less files and in an empty file. */
    var header: Option<int>
    /** The fixed-size records, in file order. */
    var records: seq<T>

    constructor (header: Option<int>, records: seq<T>)
      ensures this.header == header && this.records == records
    {
      this.header := header;
      this.records := records;
    }

    /** An empty (or absent) file: no header and no records. */
    predicate IsEmpty()
      reads this
    {
      header.None? && records == []
    }

    /** init_db_file: when the file cannot be read or is empty, (re)create it holding only a
        header with next_id 1; the write is lost if the file cannot be opened for writing. */
    method InitHeader(readOpens: bool, writeOpens: bool)
      modifies this
      ensures (!readOpens || old(IsEmpty())) && writeOpens ==> header == Some(1) && records == []
      ensures !((!readOpens || old(IsEmpty())) && writeOpens) ==>
                header == old(header) && records == old(records)
    {
      if !readOpens || IsEmpty() {
        if writeOpens {
          header := Some(1);
          records := [];
        }
      }
    }

    /** generate_and_update_id: return the header's next_id and store next_id + 1; -1 when
        the file cannot be opened. A file without a header also gives -1 here, a choice of
        this model: the source would return an unread next_id. */
    method GenerateId(opens: bool) returns (id: int)
      modifies this`header
      ensures opens && old(header).Some? ==> id == old(header).value && header == Some(id + 1)
      ensures !(opens && old(header).Some?) ==> id == -1 && header == old(header)
    {
      if !opens || header.None? {
        return -1;
      }
      id := header.value;
      header := Some(id + 1);
    }

    /** Write one record past the end of the file. */
    method Append(r: T)
      modifies this`records
      ensures records == old(records) + [r]
    {
      records := records + [r];
    }

    /** Write a record image over the one at `pos`; nothing moves. */
    method RewriteAt(pos: nat, r: T)
      requires pos < |records|
      modifies this`records
      ensures records == old(records)[pos := r]
      ensures |records| == |old(records)|
    {
      records := records[pos := r];
    }

    /** The sequential scan used by every lookup: the position of the first record that
        satisfies `p`, or -1. */
    method FindFirst(p: T -> bool) returns (pos: int)
      ensures pos == IndexWhere(records, p)
      ensures 0 <= pos ==> pos < |records| && p(records[pos])
      ensures pos < 0 ==> forall j | 0 <= j < |records| :: !p(records[j])
    {
      var i := 0;
      while i < |records|
        invariant 0 <= i <= |records|
        invariant forall j | 0 <= j < i :: !p(records[j])
      {
        if p(records[i]) {
          return i;
        }
        i := i + 1;
      }
      return -1;
    }
  }
}
