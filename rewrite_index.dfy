/**
 * The index of a product's stored URL rewrites: store id -> request path ->
 * row, built from the rows storage returns, searched by a candidate's store
 * id and request path, and drained as candidates claim entries.
 */
module RewriteIndex {
  import opened PhpValues
  import opened MemberNames

  type Index = map<int, map<string, Row>>

  /** The store a row is filed under: its store id cast to integer. */
  function StoreOf(row: Row): int
  {
    IntCast(Field(row, STORE_ID))
  }

  /** The request path a row is filed under, as an array key. */
  function PathOf(row: Row): string
  {
    ToStr(Field(row, REQUEST_PATH))
  }

  /** The row belongs at position (s, p) of an index. */
  predicate FiledAt(row: Row, s: int, p: string)
  {
    StoreOf(row) == s && PathOf(row) == p
  }

  predicate HasEntry(idx: Index, s: int, p: string)
  {
    s in idx && p in idx[s]
  }

  function At(idx: Index, s: int, p: string): Option<Row>
  {
    if HasEntry(idx, s, p) then Some(idx[s][p]) else None
  }

  /** Every entry sits at the position of its own row. */
  ghost predicate WellFormed(idx: Index)
  {
    forall s, p | HasEntry(idx, s, p) :: FiledAt(idx[s][p], s, p)
  }

  /** Every entry of `a` is an entry of `b`, with the same row. */
  ghost predicate SubIndex(a: Index, b: Index)
  {
    forall s, p | HasEntry(a, s, p) :: HasEntry(b, s, p) && a[s][p] == b[s][p]
  }

  /**
   * `$existingUrlRewrites[$storeId][$requestPath] = $row`: files the row at
   * its own position, creating the store's array when it is missing, and
   * replaces what was there.
   */
  function Insert(idx: Index, row: Row): (r: Index)
    ensures At(r, StoreOf(row), PathOf(row)) == Some(row)
    ensures forall s, p | !(s == StoreOf(row) && p == PathOf(row)) :: At(r, s, p) == At(idx, s, p)
    ensures r.Keys == idx.Keys + {StoreOf(row)}
  {
    var s, p := StoreOf(row), PathOf(row);
    var inner := if s in idx then idx[s] else map[];
    idx[s := inner[p := row]]
  }

  /**
   * The index after loading `rows` in order into an empty one. Every entry
   * is at its row's position and no store's array is empty.
   */
  function BuildIndex(rows: seq<Row>): (idx: Index)
    ensures WellFormed(idx)
    ensures forall s | s in idx :: idx[s] != map[]
  {
    if rows == [] then map[]
    else Insert(BuildIndex(rows[..|rows| - 1]), rows[|rows| - 1])
  }

  /** Loading one more row into the index built from a prefix. */
  lemma BuildIndexStep(rows: seq<Row>, i: nat)
    requires i < |rows|
    ensures BuildIndex(rows[..i + 1]) == Insert(BuildIndex(rows[..i]), rows[i])
  {
    assert rows[..i + 1][..i] == rows[..i];
  }

  /** Reference definition: the last of `rows` that belongs at (s, p), searching from the end. */
  function LastAt(rows: seq<Row>, s: int, p: string): (r: Option<Row>)
    ensures r.Some? ==> r.value in rows && FiledAt(r.value, s, p)
    ensures r.None? <==> forall i | 0 <= i < |rows| :: !FiledAt(rows[i], s, p)
  {
    if rows == [] then None
    else if FiledAt(rows[|rows| - 1], s, p) then Some(rows[|rows| - 1])
    else LastAt(rows[..|rows| - 1], s, p)
  }

  /** LastAt finds the row loaded last among those that belong at (s, p). */
  lemma {:induction false} LastAtIsLast(rows: seq<Row>, i: nat, s: int, p: string)
    requires i < |rows| && FiledAt(rows[i], s, p)
    requires forall j | i < j < |rows| :: !FiledAt(rows[j], s, p)
    ensures LastAt(rows, s, p) == Some(rows[i])
  {
    if i < |rows| - 1 {
      var init := rows[..|rows| - 1];
      assert init[i] == rows[i];
      forall j | i < j < |init| ensures !FiledAt(init[j], s, p) {
        assert init[j] == rows[j];
      }
      LastAtIsLast(init, i, s, p);
    }
  }

  /** Building the index keeps, at each position, the row loaded last there. */
  lemma {:induction false} BuildIndexIsLastLoaded(rows: seq<Row>, s: int, p: string)
    ensures At(BuildIndex(rows), s, p) == LastAt(rows, s, p)
  {
    if rows != [] {
      BuildIndexIsLastLoaded(rows[..|rows| - 1], s, p);
    }
  }

  /**
   * The positions of the built index are exactly the (store id, request
   * path) pairs of the loaded rows, and each holds the last row loaded with
   * that pair.
   */
  lemma BuildIndexEntries(rows: seq<Row>, s: int, p: string)
    ensures HasEntry(BuildIndex(rows), s, p) <==> exists i | 0 <= i < |rows| :: FiledAt(rows[i], s, p)
    ensures forall i | 0 <= i < |rows| && FiledAt(rows[i], s, p) &&
                       (forall j | i < j < |rows| :: !FiledAt(rows[j], s, p)) ::
              At(BuildIndex(rows), s, p) == Some(rows[i])
  {
    BuildIndexIsLastLoaded(rows, s, p);
    forall i | 0 <= i < |rows| && FiledAt(rows[i], s, p) &&
               (forall j | i < j < |rows| :: !FiledAt(rows[j], s, p))
      ensures At(BuildIndex(rows), s, p) == Some(rows[i])
    {
      LastAtIsLast(rows, i, s, p);
    }
  }

  /**
   * getExistingUrlRewrite: the entry at the array keys the store id and the
   * request path become. A store id that becomes a string key finds nothing,
   * since every store is filed under an integer.
   */
  function Lookup(idx: Index, storeId: Value, requestPath: Value): (r: Option<Row>)
    ensures r.Some? <==> ArrayKeyInt(storeId).Some? && HasEntry(idx, ArrayKeyInt(storeId).value, ToStr(requestPath))
    ensures r.Some? ==> r == At(idx, ArrayKeyInt(storeId).value, ToStr(requestPath))
  {
    match ArrayKeyInt(storeId)
    case None => None
    case Some(s) => At(idx, s, ToStr(requestPath))
  }

  /**
   * Looking an entry up by its store id, as an integer or as the decimal
   * string storage returns, and by its request path finds that entry.
   */
  lemma LookupFindsEntry(idx: Index, s: int, p: string)
    requires HasEntry(idx, s, p)
    ensures Lookup(idx, Int(s), Str(p)) == Some(idx[s][p])
    ensures Lookup(idx, Str(IntToString(s)), Str(p)) == Some(idx[s][p])
  {
    ArrayKeyIntOfDecimal(s);
  }

  /**
   * A row whose store id is an integer, or the decimal string storage
   * returns, is filed under that integer and its request path.
   */
  lemma FiledAtOfStored(row: Row, s: int, p: string)
    requires Field(row, STORE_ID) == Int(s) || Field(row, STORE_ID) == Str(IntToString(s))
    requires Field(row, REQUEST_PATH) == Str(p)
    ensures FiledAt(row, s, p)
  {
    IntCastOfIntToString(s);
  }

  /**
   * Looking a row up by its own uncast store id and request path reaches the
   * position it is filed under (its store id cast to integer) when the store
   * id is an integer key, and finds nothing when it is not.
   */
  lemma LookupOwnPosition(idx: Index, row: Row)
    ensures ArrayKeyInt(Field(row, STORE_ID)).Some? ==>
      Lookup(idx, Field(row, STORE_ID), Field(row, REQUEST_PATH)) == At(idx, StoreOf(row), PathOf(row))
    ensures ArrayKeyInt(Field(row, STORE_ID)).None? ==>
      Lookup(idx, Field(row, STORE_ID), Field(row, REQUEST_PATH)).None?
  {
  }

  /**
   * removeExistingUrlRewrite: unsets the position of the passed row (its
   * store id cast to integer and its request path) and nothing else; when
   * that position is empty the index is unchanged. The store's array stays,
   * possibly empty, as `unset` leaves it.
   */
  function Remove(idx: Index, row: Row): (r: Index)
    ensures r.Keys == idx.Keys
    ensures !HasEntry(r, StoreOf(row), PathOf(row))
    ensures forall s, p | !FiledAt(row, s, p) :: At(r, s, p) == At(idx, s, p)
    ensures !HasEntry(idx, StoreOf(row), PathOf(row)) ==> r == idx
    ensures SubIndex(r, idx)
    ensures WellFormed(idx) ==> WellFormed(r)
  {
    var s, p := StoreOf(row), PathOf(row);
    if HasEntry(idx, s, p) then idx[s := idx[s] - {p}] else idx
  }

  /** Removing the same row twice is removing it once. */
  lemma RemoveIdempotent(idx: Index, row: Row)
    ensures Remove(Remove(idx, row), row) == Remove(idx, row)
  {
  }
}
