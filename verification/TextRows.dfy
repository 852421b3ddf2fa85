/**
 Tables of C strings: n rows of `width` bytes in one byte array, each holding a string and its
 terminator, with whatever was written before behind it.
 */
module TextRows {
  import opened Bytes
  import opened CStrings

  type Text = seq<byte>

  /** Where row i begins. */
  function Start(width: nat, i: nat): nat { width * i }

  lemma Inside(width: nat, i: nat, n: nat)
    requires i < n
    ensures Start(width, i) + width <= Start(width, n)
  {
    assert width * n == width * i + width + width * (n - i - 1);
  }

  predicate Shaped(cells: seq<byte>, width: nat, n: nat) { |cells| == Start(width, n) }

  function Row(cells: seq<byte>, width: nat, n: nat, i: nat): (row: seq<byte>)
    requires Shaped(cells, width, n) && i < n
    ensures |row| == width
  {
    Inside(width, i, n);
    cells[Start(width, i)..Start(width, i) + width]
  }

  /** The string in row i. */
  function RowText(cells: seq<byte>, width: nat, n: nat, i: nat): Text
    requires Shaped(cells, width, n) && i < n
  {
    CStr(Row(cells, width, n, i))
  }

  /** The strings of the first k rows. */
  function Texts(cells: seq<byte>, width: nat, n: nat, k: nat): (t: seq<Text>)
    requires Shaped(cells, width, n) && k <= n
    ensures |t| == k && forall i :: 0 <= i < k ==> t[i] == RowText(cells, width, n, i)
  {
    seq(k, i requires 0 <= i < k => RowText(cells, width, n, i))
  }

  /** Every row but i is the same in both tables. */
  ghost predicate OtherRows(a: seq<byte>, b: seq<byte>, width: nat, n: nat, i: nat) {
    && Shaped(a, width, n) && Shaped(b, width, n)
    && forall j: nat :: j < n && j != i ==> Row(b, width, n, j) == Row(a, width, n, j)
  }

  /** A row that starts with a NUL-free text and its terminator holds that text. */
  lemma RowHolds(row: seq<byte>, text: Text)
    requires |text| < |row| && row[..|text|] == text && row[|text|] == 0 && NulFree(text)
    ensures CStr(row) == text
  {
    CStrIs(row, |text|);
  }

  /** The bytes of a row up to its terminator. */
  lemma RowBytes(row: seq<byte>)
    requires |CStr(row)| < |row|
    ensures row[|CStr(row)|] == 0 && row[..|CStr(row)|] == CStr(row) && NulFree(CStr(row))
  {
    CStrLength(row);
  }

  lemma WrittenRow(a: seq<byte>, b: seq<byte>, width: nat, n: nat, i: nat, lo: nat, hi: nat)
    requires Shaped(a, width, n) && |b| == |a| && i < n && lo <= hi <= width
    requires forall x :: 0 <= x < |a| && !(Start(width, i) + lo <= x < Start(width, i) + hi) ==> b[x] == a[x]
    ensures OtherRows(a, b, width, n, i)
    ensures Row(b, width, n, i)[..lo] == Row(a, width, n, i)[..lo]
    ensures Row(b, width, n, i)[hi..] == Row(a, width, n, i)[hi..]
  {
    hide Start;
    Inside(width, i, n);
    forall j: nat | j < n && j != i ensures Row(b, width, n, j) == Row(a, width, n, j) {
      Inside(width, j, n);
      if j < i { Inside(width, j, i); } else { Inside(width, i, j); }
    }
  }

  /** Write bytes into row i from position `at` on. */
  method PutBytes(cells: array<byte>, width: nat, n: nat, i: nat, at: nat, data: seq<byte>)
    requires Shaped(cells[..], width, n) && i < n && at + |data| <= width
    modifies cells
    ensures OtherRows(old(cells[..]), cells[..], width, n, i)
    ensures Row(cells[..], width, n, i)[..at] == Row(old(cells[..]), width, n, i)[..at]
    ensures Row(cells[..], width, n, i)[at..at + |data|] == data
  {
    hide Start;
    Inside(width, i, n);
    ghost var before := cells[..];
    var o := Start(width, i) + at;
    var k := 0;
    while k < |data|
      invariant 0 <= k <= |data|
      invariant forall j :: 0 <= j < k ==> cells[o + j] == data[j]
      invariant forall x :: 0 <= x < cells.Length && !(o <= x < o + k) ==> cells[x] == before[x]
    {
      cells[o + k] := data[k];
      k := k + 1;
    }
    WrittenRow(before, cells[..], width, n, i, at, at + |data|);
  }

  lemma JoinedRow(row: seq<byte>, at: nat, front: Text, data: Text)
    requires at == |front| && at + |data| < |row| && row[..at] == front && row[at..at + |data| + 1] == data + [0]
    requires NulFree(front) && NulFree(data)
    ensures CStr(row) == front + data
  {
    var text := front + data;
    assert row[..|text|] == row[..at] + row[at..at + |data| + 1][..|data|];
    assert row[|text|] == row[at..at + |data| + 1][|data|];
    RowHolds(row, text);
  }

  /** Put a text and its terminator into row i, behind the `at` characters that are there. */
  method PutText(cells: array<byte>, width: nat, n: nat, i: nat, at: nat, data: Text)
    requires Shaped(cells[..], width, n) && i < n && at + |data| < width && NulFree(data)
    requires NulFree(Row(cells[..], width, n, i)[..at])
    modifies cells
    ensures OtherRows(old(cells[..]), cells[..], width, n, i)
    ensures RowText(cells[..], width, n, i) == Row(old(cells[..]), width, n, i)[..at] + data
  {
    hide Row, Start;
    PutBytes(cells, width, n, i, at, data + [0]);
    JoinedRow(Row(cells[..], width, n, i), at, Row(old(cells[..]), width, n, i)[..at], data);
  }

  /** Byte j of row i. */
  method GetByte(cells: array<byte>, width: nat, n: nat, i: nat, j: nat) returns (c: byte)
    requires Shaped(cells[..], width, n) && i < n && j < width
    ensures c == Row(cells[..], width, n, i)[j]
  {
    Inside(width, i, n);
    c := cells[Start(width, i) + j];
  }

  /** The string that begins at position `from` of row i. */
  method GetText(cells: array<byte>, width: nat, n: nat, i: nat, from: nat) returns (t: Text)
    requires Shaped(cells[..], width, n) && i < n && |RowText(cells[..], width, n, i)| < width
    requires from <= |RowText(cells[..], width, n, i)|
    ensures t == RowText(cells[..], width, n, i)[from..]
  {
    hide Row, Start;
    ghost var row := Row(cells[..], width, n, i);
    ghost var text := CStr(row);
    RowBytes(row);
    assert forall j :: 0 <= j < |text| ==> row[j] == text[j] by {
      assert forall j :: 0 <= j < |text| ==> row[..|text|][j] == row[j];
    }
    t := [];
    var c := GetByte(cells, width, n, i, from);
    while c != 0
      invariant from + |t| <= |text| && t == text[from..from + |t|] && c == row[from + |t|]
      decreases |text| - |t|
    {
      t := t + [c];
      c := GetByte(cells, width, n, i, from + |t|);
    }
  }

  /** Replacing the text of row i replaces it in the list of texts. */
  lemma TextsUpdate(a: seq<byte>, b: seq<byte>, width: nat, n: nat, k: nat, i: nat)
    requires OtherRows(a, b, width, n, i) && k <= n && i < n
    ensures i < k ==> Texts(b, width, n, k) == Texts(a, width, n, k)[i := RowText(b, width, n, i)]
    ensures i >= k ==> Texts(b, width, n, k) == Texts(a, width, n, k)
    ensures i == k ==> Texts(b, width, n, k + 1) == Texts(a, width, n, k) + [RowText(b, width, n, i)]
  {
    hide Row, CStr;
  }
}
