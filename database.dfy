/** The signature cache: a table keyed by path that holds each file's
    modification time (seconds since the Unix epoch) and its signature. The
    SQLite table is modelled as a map from path to row, since `path` is the
    primary key. */
module Database {
  import opened Basics
  import opened Wrappers

  const TwoTo8: int := 0x100
  const TwoTo63: int := 0x8000_0000_0000_0000
  const TwoTo64: int := 0x1_0000_0000_0000_0000

  type I8 = x: int | -0x80 <= x < 0x80
  type I64 = x: int | -0x8000_0000_0000_0000 <= x < 0x8000_0000_0000_0000
  type U64 = x: int | 0 <= x < 0x1_0000_0000_0000_0000

  // ---------------------------------------------------------------------
  // Bit casts (bytemuck::cast and cast_slice): the two's-complement bit
  // pattern is kept, which is the same as keeping the value modulo 2^n.

  function U64ToI64(x: U64): (r: I64)
    ensures r % TwoTo64 == x
    ensures x < TwoTo63 ==> r == x
  {
    if x < TwoTo63 then x else x - TwoTo64
  }

  function I64ToU64(x: I64): (r: U64)
    ensures r == x % TwoTo64
    ensures 0 <= x ==> r == x
  {
    if x < 0 then x + TwoTo64 else x
  }

  function I8ToU8(x: I8): (r: U8)
    ensures r == x % TwoTo8
    ensures 0 <= x ==> r == x
  {
    if x < 0 then x + TwoTo8 else x
  }

  function U8ToI8(x: U8): (r: I8)
    ensures r % TwoTo8 == x
    ensures x < 0x80 ==> r == x
  {
    if x < 0x80 then x else x - TwoTo8
  }

  /** The timestamp cast on store and back on fetch restores it. */
  lemma TimestampRoundTrip(x: U64)
    ensures I64ToU64(U64ToI64(x)) == x
  {
  }

  /** Casting a stored timestamp out and back in restores it. */
  lemma StoredTimestampRoundTrip(x: I64)
    ensures U64ToI64(I64ToU64(x)) == x
  {
  }

  /** `cast_slice::<i8, u8>`: each byte reinterpreted. */
  function I8sToU8s(s: seq<I8>): (r: seq<U8>)
    ensures |r| == |s|
    ensures forall k :: 0 <= k < |s| ==> r[k] % TwoTo8 == s[k] % TwoTo8
  {
    seq(|s|, k requires 0 <= k < |s| => I8ToU8(s[k]))
  }

  /** `cast_slice::<u8, i8>`: each byte reinterpreted. */
  function U8sToI8s(s: seq<U8>): (r: seq<I8>)
    ensures |r| == |s|
    ensures forall k :: 0 <= k < |s| ==> r[k] % TwoTo8 == s[k]
  {
    seq(|s|, k requires 0 <= k < |s| => U8ToI8(s[k]))
  }

  /** A signature stored as a blob and read back is the signature. */
  lemma SignatureRoundTrip(s: seq<I8>)
    ensures U8sToI8s(I8sToU8s(s)) == s
  {
    var back := U8sToI8s(I8sToU8s(s));
    forall k | 0 <= k < |s|
      ensures back[k] == s[k]
    {
      assert back[k] == U8ToI8(I8ToU8(s[k]));
    }
  }

  /** A blob read as a signature and stored again is the blob. */
  lemma BlobRoundTrip(s: seq<U8>)
    ensures I8sToU8s(U8sToI8s(s)) == s
  {
    var back := I8sToU8s(U8sToI8s(s));
    forall k | 0 <= k < |s|
      ensures back[k] == s[k]
    {
      assert back[k] == I8ToU8(U8ToI8(s[k]));
    }
  }

  // ---------------------------------------------------------------------
  // Rows, file status and lookup

  /** A row of the `signatures` table, apart from its key `path`. */
  datatype StoredRow = StoredRow(modified: I64, signature: seq<U8>)

  type Table = map<string, StoredRow>

  /** What `fetch` returns for a fresh row; `id` is always 0. */
  datatype Signature = Signature(id: int, path: string, modified: U64, signature: seq<I8>)

  /** A file's modification time in whole seconds since the epoch, as
      `stat.modified()?.duration_since(UNIX_EPOCH)?.as_secs()` gives it, or
      `Unavailable` when either step fails (no modification time on the
      platform, or a time before the epoch). */
  datatype MTime = Secs(secs: U64) | Unavailable

  datatype DbError = NoModificationTime

  /** `fetch`: no row for the path gives `Ok(None)` without looking at the
      file; otherwise the file's status is needed, and the row is returned
      unless its stored time is older than the file's (equal times count as
      fresh). */
  function Fetch(table: Table, filename: string, stat: MTime): (r: Result<Option<Signature>, DbError>)
    ensures filename !in table ==> r == Ok(None)
    ensures filename in table && stat.Unavailable? ==> r.Err?
    ensures filename in table && stat.Secs? ==>
      r.Ok? && (r.value.Some? <==> I64ToU64(table[filename].modified) >= stat.secs)
    ensures r.Ok? && r.value.Some? ==>
      filename in table && r.value.value == Signature(0, filename, I64ToU64(table[filename].modified), U8sToI8s(table[filename].signature))
  {
    if filename !in table then Ok(None)
    else
      var row := table[filename];
      var modified := I64ToU64(row.modified);
      match stat
      case Unavailable => Err(NoModificationTime)
      case Secs(now) =>
        if modified < now then Ok(None)
        else Ok(Some(Signature(0, filename, modified, U8sToI8s(row.signature))))
  }

  /** The row `insert` and `insert_batch` write for a file whose
      modification time is `secs`. */
  function RowFor(secs: U64, signature: seq<I8>): (r: StoredRow)
    ensures I64ToU64(r.modified) == secs
    ensures U8sToI8s(r.signature) == signature
  {
    TimestampRoundTrip(secs);
    SignatureRoundTrip(signature);
    StoredRow(U64ToI64(secs), I8sToU8s(signature))
  }

  /** A file inserted with modification time `t` and then fetched while its
      modification time is `now` is returned exactly when `now <= t`, with
      the signature it was stored with. */
  lemma FetchAfterInsert(table: Table, filename: string, t: U64, signature: seq<I8>, now: U64)
    ensures Fetch(table[filename := RowFor(t, signature)], filename, Secs(now))
      == if now <= t then Ok(Some(Signature(0, filename, t, signature))) else Ok(None)
  {
  }

  /** Inserting one path leaves every other path's row as it was. */
  lemma FetchOtherAfterInsert(table: Table, filename: string, row: StoredRow, other: string, stat: MTime)
    requires other != filename
    ensures Fetch(table[filename := row], other, stat) == Fetch(table, other, stat)
  {
  }

  // ---------------------------------------------------------------------
  // Batches

  /** One message of the insertion channel. */
  datatype InsertionMessage = InsertionMessage(filename: string, stat: MTime, signature: seq<I8>)

  predicate AllStatted(messages: seq<InsertionMessage>) {
    forall k :: 0 <= k < |messages| ==> messages[k].stat.Secs?
  }

  /** The table after each message of a batch is written in order, each as
      an insert-or-replace on its path. */
  function ApplyBatch(table: Table, messages: seq<InsertionMessage>): (r: Table)
    requires AllStatted(messages)
    ensures r.Keys == table.Keys + set k | 0 <= k < |messages| :: messages[k].filename
    decreases |messages|
  {
    if |messages| == 0 then table
    else
      var init := messages[..|messages| - 1];
      var last := messages[|messages| - 1];
      ApplyBatch(table, init)[last.filename := RowFor(last.stat.secs, last.signature)]
  }

  /** A path no message of the batch names keeps its row (or its absence). */
  lemma {:induction false} ApplyBatchUntouched(table: Table, messages: seq<InsertionMessage>, p: string)
    requires AllStatted(messages)
    requires forall k :: 0 <= k < |messages| ==> messages[k].filename != p
    ensures p in ApplyBatch(table, messages) <==> p in table
    ensures p in table ==> ApplyBatch(table, messages)[p] == table[p]
    decreases |messages|
  {
    if |messages| > 0 {
      var init := messages[..|messages| - 1];
      assert forall k :: 0 <= k < |init| ==> init[k] == messages[k];
      ApplyBatchUntouched(table, init, p);
    }
  }

  /** Within a batch the last message for a path wins. */
  lemma {:induction false} ApplyBatchLastWins(table: Table, messages: seq<InsertionMessage>, k: nat)
    requires AllStatted(messages)
    requires k < |messages|
    requires forall j :: k < j < |messages| ==> messages[j].filename != messages[k].filename
    ensures ApplyBatch(table, messages)[messages[k].filename]
      == RowFor(messages[k].stat.secs, messages[k].signature)
    decreases |messages|
  {
    if k < |messages| - 1 {
      var init := messages[..|messages| - 1];
      assert forall j :: 0 <= j < |init| ==> init[j] == messages[j];
      ApplyBatchLastWins(table, init, k);
    }
  }

  /** The connection, reduced to its `signatures` table. */
  class SignatureDb {
    var rows: Table

    /** `init` on a new database: the table exists and is empty. */
    constructor ()
      ensures rows == map[]
    {
      rows := map[];
    }

    /** `insert`: an insert-or-replace of one row. Without a modification
        time it fails before writing; otherwise the path's row, and only
        it, now holds the new time and signature, and one row is reported
        changed. */
    method Insert(filename: string, stat: MTime, signature: seq<I8>) returns (r: Result<nat, DbError>)
      modifies this
      ensures stat.Unavailable? ==> r.Err? && rows == old(rows)
      ensures stat.Secs? ==> r == Ok(1) && rows == old(rows)[filename := RowFor(stat.secs, signature)]
    {
      if stat.Unavailable? {
        return Err(NoModificationTime);
      }
      var since := U64ToI64(stat.secs);
      var blob := I8sToU8s(signature);
      rows := rows[filename := StoredRow(since, blob)];
      r := Ok(1);
    }

    /** `insert_batch`: every message is written inside one transaction,
        which is committed only after the last. A message without a
        modification time returns the error before the commit, so the
        transaction is dropped and the table is left as it was. */
    method InsertBatch(messages: seq<InsertionMessage>) returns (r: Result<(), DbError>)
      modifies this
      ensures !AllStatted(messages) ==> r.Err? && rows == old(rows)
      ensures AllStatted(messages) ==> r == Ok(()) && rows == ApplyBatch(old(rows), messages)
    {
      var pending := rows;
      var i := 0;
      while i < |messages|
        invariant 0 <= i <= |messages|
        invariant AllStatted(messages[..i])
        invariant pending == ApplyBatch(rows, messages[..i])
      {
        var msg := messages[i];
        if msg.stat.Unavailable? {
          return Err(NoModificationTime);
        }
        var since := U64ToI64(msg.stat.secs);
        var blob := I8sToU8s(msg.signature);
        assert messages[..i + 1][..i] == messages[..i];
        pending := pending[msg.filename := StoredRow(since, blob)];
        i := i + 1;
      }
      assert messages[..i] == messages;
      rows := pending;
      r := Ok(());
    }
  }
}
