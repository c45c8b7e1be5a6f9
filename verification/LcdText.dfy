/**
 What text does to display memory: characters laid one after another around a
 ring of cells, later ones over earlier ones. Lines of the display and the
 pattern memory are such rings. The lemmas give the closed form the loops of the
 driver are measured against.
 */
module LcdText {
  import opened Division
  import opened Machine

  /** The column that character k of a text laid from column x falls on. */
  function Column(x: nat, k: nat, size: nat): (c: nat)
    requires 0 < size
    ensures c < size
  {
    (x + k) % size
  }

  /** `text` laid from column x of the ring of `size` cells that starts at `base`. */
  function Put(cells: seq<U8>, base: nat, size: nat, x: nat, text: seq<U8>): (r: seq<U8>)
    requires 0 < size && base + size <= |cells|
    ensures |r| == |cells|
  {
    if text == [] then cells
    else
      var last := |text| - 1;
      Put(cells, base, size, x, text[..last])[base + Column(x, last, size) := text[last]]
  }

  /** Cells outside the ring keep their contents. */
  lemma {:induction false} PutOutside(cells: seq<U8>, base: nat, size: nat, x: nat, text: seq<U8>, c: nat)
    requires 0 < size && base + size <= |cells| && c < |cells|
    requires c < base || base + size <= c
    ensures Put(cells, base, size, x, text)[c] == cells[c]
  {
    if text != [] {
      PutOutside(cells, base, size, x, text[..|text| - 1], c);
    }
  }

  /** Character k writes its column unless a later character comes round to it. */
  lemma {:induction false} PutLastWriteWins(cells: seq<U8>, base: nat, size: nat, x: nat, text: seq<U8>, k: nat)
    requires 0 < size && base + size <= |cells| && k < |text|
    requires forall j :: k < j < |text| ==> Column(x, j, size) != Column(x, k, size)
    ensures Put(cells, base, size, x, text)[base + Column(x, k, size)] == text[k]
  {
    var last := |text| - 1;
    if k < last {
      assert Column(x, last, size) != Column(x, k, size);
      PutLastWriteWins(cells, base, size, x, text[..last], k);
    }
  }

  /** A column no character falls on keeps its contents. */
  lemma {:induction false} PutUntouched(cells: seq<U8>, base: nat, size: nat, x: nat, text: seq<U8>, c: nat)
    requires 0 < size && base + size <= |cells| && c < size
    requires forall j :: 0 <= j < |text| ==> Column(x, j, size) != c
    ensures Put(cells, base, size, x, text)[base + c] == cells[base + c]
  {
    if text != [] {
      var last := |text| - 1;
      assert Column(x, last, size) != c;
      PutUntouched(cells, base, size, x, text[..last], c);
    }
  }

  /** Fewer than a whole turn apart, two characters fall on different columns of a line. */
  lemma ColumnsDiffer(x: nat, j: nat, k: nat)
    requires k < j < k + 40
    ensures Column(x, j, 40) != Column(x, k, 40)
  {
  }

  /**
   The closed form on a 40-column line: the last 40 characters of the text are
   the ones seen, the columns a short text does not reach keep their contents,
   and so does everything outside the line.
   */
  lemma PutLine(cells: seq<U8>, base: nat, x: nat, text: seq<U8>)
    requires base + 40 <= |cells|
    ensures forall k | 0 <= k < |text| <= k + 40 ::
              Put(cells, base, 40, x, text)[base + Column(x, k, 40)] == text[k]
    ensures forall k | |text| <= k < 40 ::
              Put(cells, base, 40, x, text)[base + Column(x, k, 40)] == cells[base + Column(x, k, 40)]
    ensures forall c | 0 <= c < |cells| && !(base <= c < base + 40) ::
              Put(cells, base, 40, x, text)[c] == cells[c]
  {
    forall k | 0 <= k < |text| <= k + 40
      ensures Put(cells, base, 40, x, text)[base + Column(x, k, 40)] == text[k]
    {
      forall j | k < j < |text| ensures Column(x, j, 40) != Column(x, k, 40) {
        ColumnsDiffer(x, j, k);
      }
      PutLastWriteWins(cells, base, 40, x, text, k);
    }
    forall k | |text| <= k < 40
      ensures Put(cells, base, 40, x, text)[base + Column(x, k, 40)] == cells[base + Column(x, k, 40)]
    {
      forall j | 0 <= j < |text| ensures Column(x, j, 40) != Column(x, k, 40) {
        ColumnsDiffer(x, k, j);
      }
      PutUntouched(cells, base, 40, x, text, Column(x, k, 40));
    }
    forall c | 0 <= c < |cells| && !(base <= c < base + 40)
      ensures Put(cells, base, 40, x, text)[c] == cells[c]
    {
      PutOutside(cells, base, 40, x, text, c);
    }
  }

  lemma ColumnContinues(x: nat, j: nat, k: nat)
    ensures Column(Column(x, j, 40), k, 40) == Column(x, j + k, 40)
  {
    RemainderOfSum(x + j, k, 40);
    assert x + j + k == x + (j + k);
  }

  /** A text shown in two pieces, the second from where the first ended, shows as one. */
  lemma {:induction false} PutJoined(cells: seq<U8>, base: nat, x: nat, first: seq<U8>, second: seq<U8>)
    requires base + 40 <= |cells|
    ensures Put(cells, base, 40, x, first + second)
         == Put(Put(cells, base, 40, x, first), base, 40, Column(x, |first|, 40), second)
  {
    var all := first + second;
    if second == [] {
      assert all == first;
    } else {
      var last := |second| - 1;
      assert all[..|all| - 1] == first + second[..last];
      assert all[|all| - 1] == second[last];
      PutJoined(cells, base, x, first, second[..last]);
      ColumnContinues(x, |first|, last);
    }
  }

  /** The pattern memory as eight slots of eight rows. */
  function Slot(cgram: seq<U8>, k: nat): seq<U8>
    requires |cgram| == 64 && k < 8
  {
    cgram[8 * k..8 * k + 8]
  }

  /** Row i of a short pattern laid from address a is at a + i, short of the end of the memory. */
  lemma {:induction false} PutPattern(cgram: seq<U8>, a: nat, rows: seq<U8>)
    requires |cgram| == 64 && a + |rows| <= 64
    ensures Put(cgram, 0, 64, a, rows) == cgram[..a] + rows + cgram[a + |rows|..]
  {
    if rows == [] {
      assert cgram[..a] + rows + cgram[a..] == cgram;
    } else {
      var last := |rows| - 1;
      PutPattern(cgram, a, rows[..last]);
      assert Column(a, last, 64) == a + last;
      assert rows == rows[..last] + [rows[last]];
    }
  }

  /** Writing slot k is an update at k of the map from slots to patterns. */
  lemma PutSlot(cgram: seq<U8>, k: nat, rows: seq<U8>, j: nat)
    requires |cgram| == 64 && k < 8 && |rows| == 8 && j < 8
    ensures Slot(Put(cgram, 0, 64, 8 * k, rows), j) == if j == k then rows else Slot(cgram, j)
  {
    PutPattern(cgram, 8 * k, rows);
  }

  /** What RdCGRAM reads for slot k: `rows` rows from address k, not from address k times the rows. */
  function ReadSlot(cgram: seq<U8>, k: nat, rows: nat): seq<U8>
    requires |cgram| == 64 && k + rows <= 64
  {
    cgram[k..k + rows]
  }

  /** Writing a pattern of eight rows and reading it back under the same number returns it for slot 0 and no other. */
  lemma ReadBackOnlySlotZero(k: nat)
    requires k < 8
    ensures (forall cgram: seq<U8>, rows: seq<U8> | |cgram| == 64 && |rows| == 8 ::
               ReadSlot(Put(cgram, 0, 64, 8 * k, rows), k, 8) == rows)
       <==> k == 0
  {
    if k == 0 {
      forall cgram: seq<U8>, rows: seq<U8> | |cgram| == 64 && |rows| == 8
        ensures ReadSlot(Put(cgram, 0, 64, 8 * k, rows), k, 8) == rows
      {
        PutPattern(cgram, 0, rows);
      }
    } else {
      var blank: seq<U8> := seq(64, _ => 0);
      var rows: seq<U8> := seq(8, _ => 1);
      PutPattern(blank, 8 * k, rows);
      var read := ReadSlot(Put(blank, 0, 64, 8 * k, rows), k, 8);
      assert read[7 - k] == Put(blank, 0, 64, 8 * k, rows)[7] == blank[7];
      assert read[7 - k] == 0 && rows[7 - k] == 1;
    }
  }

  /** And so it is for ten rows, where slots 0 to 6 begin within the memory and the last goes round its end. */
  lemma TallReadBackOnlySlotZero(k: nat)
    requires k < 7
    ensures (forall cgram: seq<U8>, rows: seq<U8> | |cgram| == 64 && |rows| == 10 ::
               ReadSlot(Put(cgram, 0, 64, 10 * k, rows), k, 10) == rows)
       <==> k == 0
  {
    if k == 0 {
      forall cgram: seq<U8>, rows: seq<U8> | |cgram| == 64 && |rows| == 10
        ensures ReadSlot(Put(cgram, 0, 64, 10 * k, rows), k, 10) == rows
      {
        PutPattern(cgram, 0, rows);
      }
    } else {
      var blank: seq<U8> := seq(64, _ => 0);
      var rows: seq<U8> := seq(10, _ => 1);
      var written := Put(blank, 0, 64, 10 * k, rows);
      assert forall j :: 0 <= j < |rows| ==> Column(10 * k, j, 64) != 9;
      PutUntouched(blank, 0, 64, 10 * k, rows, 9);
      assert ReadSlot(written, k, 10)[9 - k] == written[9] == blank[9];
      assert ReadSlot(written, k, 10)[9 - k] == 0 && rows[9 - k] == 1;
    }
  }
}
