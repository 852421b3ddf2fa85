/**
 The shell's environment table: rows "name=value" that stand for a finite map.
 */
module ShellEnv {
  import opened Words
  import opened Bytes
  import opened CStrings
  import opened TextRows

  const MAX_ENV: nat := 32
  const ENV_VAL_MAX: nat := 128
  const EQ: byte := 61

  type Table = seq<Text>

  datatype Assignment = Assignment(name: Text, value: Text)

  /** A name the table can hold: free of '=' and NUL. */
  predicate Legal(name: Text) { forall i :: 0 <= i < |name| ==> name[i] != EQ && name[i] != 0 }

  function RowOf(name: Text, value: Text): Text { name + [EQ] + value }

  /** The row starts with the name and an equals sign. */
  predicate Matches(row: Text, name: Text) {
    |row| > |name| && row[..|name|] == name && row[|name|] == EQ
  }

  /** The first row for the name, or |t|. */
  function FindRow(t: Table, name: Text): (i: nat)
    ensures i <= |t|
    ensures i < |t| ==> Matches(t[i], name)
    ensures forall j :: 0 <= j < i ==> !Matches(t[j], name)
  {
    if t == [] || Matches(t[0], name) then 0 else 1 + FindRow(t[1..], name)
  }

  function Get(t: Table, name: Text): Option<Text> {
    var i := FindRow(t, name);
    if i < |t| then Some(t[i][|name| + 1..]) else None
  }

  predicate TooLong(a: Assignment) { |a.name| + 1 + |a.value| >= ENV_VAL_MAX }

  /** env_set on the table. */
  function Set(t: Table, a: Assignment): Table {
    var i := FindRow(t, a.name);
    if TooLong(a) then t
    else if i < |t| then t[i := RowOf(a.name, a.value)]
    else if |t| < MAX_ENV then t + [RowOf(a.name, a.value)]
    else t
  }

  // ---------------------------------------------------------------- the finite map

  type Env = map<Text, Text>

  /** A set is refused exactly when the text is too long or a new name finds the table full. */
  predicate Refused(m: Env, a: Assignment) {
    TooLong(a) || (a.name !in m && |m| >= MAX_ENV)
  }

  function SetMap(m: Env, a: Assignment): Env {
    if Refused(m, a) then m else m[a.name := a.value]
  }

  /** Row i spells the legal name names[i]; no name occurs twice. */
  ghost predicate Names(t: Table, names: seq<Text>) {
    && |names| == |t|
    && (forall i :: 0 <= i < |t| ==>
          Legal(names[i]) && Matches(t[i], names[i]) && NulFree(t[i]) && |t[i]| < ENV_VAL_MAX)
    && (forall i, j :: 0 <= i < j < |t| ==> names[i] != names[j])
  }

  /** The map holds, under the row's name, what follows the row's equals sign. */
  predicate ReadsAs(row: Text, name: Text, m: Env) {
    |row| > |name| && name in m && m[name] == row[|name| + 1..]
  }

  /** The table reads as the map, under unique names. */
  ghost predicate Refines(t: Table, names: seq<Text>, m: Env) {
    && Names(t, names)
    && (forall n :: n in m ==> n in names) && |m| == |t|
    && (forall i :: 0 <= i < |t| ==> ReadsAs(t[i], names[i], m))
  }

  /** A legal name ends where the first equals sign of its row is. */
  lemma FirstEquals(row: Text, n: Text)
    requires Legal(n) && Matches(row, n)
    ensures row[|n|] == EQ && forall j :: 0 <= j < |n| ==> row[j] != EQ
  {
    assert forall j :: 0 <= j < |n| ==> row[..|n|][j] == row[j];
  }

  /** A row with a legal name matches no other legal name. */
  lemma MatchIsName(row: Text, n: Text, name: Text)
    requires Legal(n) && Legal(name) && Matches(row, n)
    ensures Matches(row, name) <==> name == n
  {
    if Matches(row, name) {
      FirstEquals(row, n);
      FirstEquals(row, name);
    }
  }

  lemma FindIsIndex(t: Table, names: seq<Text>, name: Text)
    requires Names(t, names) && Legal(name)
    ensures var i := FindRow(t, name);
            (i < |t| ==> names[i] == name) && (i == |t| ==> name !in names)
  {
    forall i | 0 <= i < |t| ensures Matches(t[i], name) <==> names[i] == name {
      MatchIsName(t[i], names[i], name);
    }
  }

  /** What env_get reads is what the map holds. */
  lemma GetReads(t: Table, names: seq<Text>, m: Env, name: Text)
    requires Refines(t, names, m) && Legal(name)
    ensures Get(t, name) == if name in m then Some(m[name]) else None
  {
    FindIsIndex(t, names, name);
    var i := FindRow(t, name);
    if i < |t| {
      assert names[i] == name;
    }
  }

  function NamesAfter(t: Table, names: seq<Text>, a: Assignment): seq<Text> {
    if TooLong(a) || FindRow(t, a.name) < |t| || |t| >= MAX_ENV then names else names + [a.name]
  }

  lemma RowMatches(a: Assignment)
    requires Legal(a.name) && NulFree(a.value)
    ensures var row := RowOf(a.name, a.value);
            Matches(row, a.name) && row[|a.name| + 1..] == a.value && NulFree(row)
  {
  }

  lemma ReplaceRefines(t: Table, names: seq<Text>, m: Env, i: nat, row: Text, value: Text)
    requires Refines(t, names, m) && i < |t|
    requires Matches(row, names[i]) && NulFree(row) && |row| < ENV_VAL_MAX && row[|names[i]| + 1..] == value
    ensures Refines(t[i := row], names, m[names[i] := value])
  {
    hide Legal, NulFree;
    assert ReadsAs(t[i], names[i], m);
    var m' := m[names[i] := value];
    assert m'.Keys == m.Keys;
    forall j | 0 <= j < |t| ensures ReadsAs(t[i := row][j], names[j], m') {
      assert ReadsAs(t[j], names[j], m);
    }
  }

  lemma AppendRefines(t: Table, names: seq<Text>, m: Env, name: Text, row: Text, value: Text)
    requires Refines(t, names, m) && name !in names && Legal(name)
    requires Matches(row, name) && NulFree(row) && |row| < ENV_VAL_MAX && row[|name| + 1..] == value
    ensures Refines(t + [row], names + [name], m[name := value])
  {
    hide Names, Legal, NulFree, ReadsAs;
    AppendNames(t, names, name, row);
    SameLength(t, names);
    var t', names', m' := t + [row], names + [name], m[name := value];
    assert name !in m;
    assert m'.Keys == m.Keys + {name};
    forall i | 0 <= i < |t'| ensures ReadsAs(t'[i], names'[i], m') {
      if i < |t| {
        assert names'[i] == names[i] && t'[i] == t[i];
        ReadsAsOther(t[i], names[i], m, name, value);
      } else {
        ReadsAsNew(row, name, m, value);
      }
    }
  }

  lemma ReadsAsOther(row: Text, n: Text, m: Env, name: Text, value: Text)
    requires ReadsAs(row, n, m) && n != name
    ensures ReadsAs(row, n, m[name := value])
  {
  }

  lemma ReadsAsNew(row: Text, name: Text, m: Env, value: Text)
    requires |row| > |name| && row[|name| + 1..] == value
    ensures ReadsAs(row, name, m[name := value])
  {
  }

  lemma SameLength(t: Table, names: seq<Text>)
    requires Names(t, names)
    ensures |names| == |t|
  {
  }

  lemma AppendNames(t: Table, names: seq<Text>, name: Text, row: Text)
    requires Names(t, names) && name !in names && Legal(name)
    requires Matches(row, name) && NulFree(row) && |row| < ENV_VAL_MAX
    ensures Names(t + [row], names + [name])
  {
    hide Matches, Legal, NulFree;
  }

  /** One env_set updates the map at one name, or is refused. */
  lemma SetRefines(t: Table, names: seq<Text>, m: Env, a: Assignment)
    requires Refines(t, names, m) && Legal(a.name) && NulFree(a.value)
    ensures Refines(Set(t, a), NamesAfter(t, names, a), SetMap(m, a))
  {
    hide Matches, Legal, NulFree, FindRow;
    FindIsIndex(t, names, a.name);
    RowMatches(a);
    var i := FindRow(t, a.name);
    if i < |t| {
      assert names[i] in m;
      if !TooLong(a) {
        ReplaceRefines(t, names, m, i, RowOf(a.name, a.value), a.value);
      }
    } else {
      assert a.name !in m;
      if !TooLong(a) && |t| < MAX_ENV {
        AppendRefines(t, names, m, a.name, RowOf(a.name, a.value), a.value);
      }
    }
  }

  /** What a set leaves to be read: its value exactly if row and terminator fit and a row is there or free. */
  lemma SetReads(t: Table, names: seq<Text>, m: Env, a: Assignment, other: Text)
    requires Refines(t, names, m) && Legal(a.name) && NulFree(a.value) && Legal(other)
    ensures var fits := |a.name| + |a.value| + 2 <= 128 && (Get(t, a.name) != None || |t| < 32);
            && (fits ==> Get(Set(t, a), a.name) == Some(a.value))
            && (!fits ==> Set(t, a) == t)
            && (other != a.name ==> Get(Set(t, a), other) == Get(t, other))
  {
    hide Legal, NulFree, Refines, Matches;
    SetRefines(t, names, m, a);
    GetReads(t, names, m, a.name);
    GetReads(t, names, m, other);
    GetReads(Set(t, a), NamesAfter(t, names, a), SetMap(m, a), a.name);
    GetReads(Set(t, a), NamesAfter(t, names, a), SetMap(m, a), other);
    SameSize(t, names, m);
  }

  lemma SameSize(t: Table, names: seq<Text>, m: Env)
    requires Refines(t, names, m)
    ensures |m| == |t|
  {
  }

  function Run(t: Table, ops: seq<Assignment>): Table
    decreases |ops|
  {
    if ops == [] then t else Run(Set(t, ops[0]), ops[1..])
  }

  function RunMap(m: Env, ops: seq<Assignment>): Env
    decreases |ops|
  {
    if ops == [] then m else RunMap(SetMap(m, ops[0]), ops[1..])
  }

  /** Over any run of env_set with legal names, env_get reads the finite map. */
  lemma {:induction false} RunRefines(t: Table, names: seq<Text>, m: Env, ops: seq<Assignment>)
    returns (names': seq<Text>)
    requires Refines(t, names, m) && forall a :: a in ops ==> Legal(a.name) && NulFree(a.value)
    ensures Refines(Run(t, ops), names', RunMap(m, ops))
    ensures forall name :: Legal(name) ==>
              Get(Run(t, ops), name) ==
                if name in RunMap(m, ops) then Some(RunMap(m, ops)[name]) else None
    decreases |ops|
  {
    if ops == [] {
      names' := names;
      forall name | Legal(name) ensures Get(t, name) == if name in m then Some(m[name]) else None {
        GetReads(t, names, m, name);
      }
    } else {
      assert ops[0] in ops && forall a :: a in ops[1..] ==> a in ops;
      SetRefines(t, names, m, ops[0]);
      names' := RunRefines(Set(t, ops[0]), NamesAfter(t, names, ops[0]), SetMap(m, ops[0]), ops[1..]);
    }
  }

  // ---------------------------------------------------------------- the exit status

  /** C division and remainder by a positive number: the quotient is cut towards zero. */
  function Quotient(v: int, d: int): int
    requires d > 0
  {
    if v >= 0 then v / d else -(-v / d)
  }

  function Remainder(v: int, d: int): int
    requires d > 0
  {
    v - d * Quotient(v, d)
  }

  /** The character code of digit q as the shell computes it, cut to a byte. */
  function Digit(q: int): byte { (48 + q) % 256 }

  /** The text of the exit status: three characters, or fewer if one of them comes out as NUL. */
  function StatusText(status: int): Text {
    var rest := Remainder(status, 100);
    CStr([Digit(Quotient(status, 100)), Digit(Quotient(rest, 10)), Digit(Remainder(rest, 10))])
  }

  predicate IsDigit(c: byte) { 48 <= c <= 57 }

  function Value(c: byte): int { c as int - 48 }

  /** The text is three decimal digits that spell the status. */
  predicate Spells(t: Text, status: int) {
    && |t| == 3 && IsDigit(t[0]) && IsDigit(t[1]) && IsDigit(t[2])
    && status == 100 * Value(t[0]) + 10 * Value(t[1]) + Value(t[2])
  }

  /** The status is spelled out exactly from 0 to 999. */
  lemma StatusSpelledIff(status: int)
    ensures Spells(StatusText(status), status) <==> 0 <= status <= 999
  {
    hide Quotient, Remainder, CStr;
    if 0 <= status <= 999 {
      var a, b := Quotient(status, 100), Remainder(status, 100);
      SmallDivision(status, 100);
      SmallDivision(b, 10);
      var t := [Digit(a), Digit(Quotient(b, 10)), Digit(Remainder(b, 10))];
      SmallDigit(a);
      SmallDigit(Quotient(b, 10));
      SmallDigit(Remainder(b, 10));
      assert NulFree(t);
      CStrOfNulFree(t);
    }
  }

  lemma SmallDivision(v: int, d: int)
    requires 0 <= v < 10 * d
    ensures 0 <= Quotient(v, d) <= 9 && 0 <= Remainder(v, d) < d && v == d * Quotient(v, d) + Remainder(v, d)
  {
    QuotientBound(v, d, 10);
    assert v == d * (v / d) + v % d;
  }

  lemma SmallDigit(q: int)
    requires 0 <= q <= 9
    ensures IsDigit(Digit(q)) && Value(Digit(q)) == q && Digit(q) != 0
  {
  }

  // ---------------------------------------------------------------- env_get and env_set

  class Environment {
    const cells: array<byte>           // env_vars: 32 rows of 128 bytes
    var count: nat                     // env_count
    ghost var names: seq<Text>
    ghost var env: Env

    /** The strings of the rows in use. */
    ghost function Rows(): Table
      requires Shaped(cells[..], ENV_VAL_MAX, MAX_ENV) && count <= MAX_ENV
      reads this, cells
    {
      Texts(cells[..], ENV_VAL_MAX, MAX_ENV, count)
    }

    ghost predicate Valid()
      reads this, cells
    {
      Shaped(cells[..], ENV_VAL_MAX, MAX_ENV) && count <= MAX_ENV && Refines(Rows(), names, env)
    }

    constructor ()
      ensures Valid() && env == map[] && fresh(cells)
    {
      cells := new byte[Start(ENV_VAL_MAX, MAX_ENV)](_ => 0);
      count, names, env := 0, [], map[];
    }

    lemma RowFits(i: nat)
      requires Valid() && i < count
      ensures Rows()[i] == RowText(cells[..], ENV_VAL_MAX, MAX_ENV, i)
      ensures |Rows()[i]| < ENV_VAL_MAX && NulFree(Rows()[i])
    {
    }

    /** The inner loop of both functions: does row i belong to the name? */
    method MatchRow(i: nat, name: Text) returns (r: bool)
      requires Valid() && i < count && Legal(name)
      ensures r == Matches(Rows()[i], name)
    {
      hide Refines, Row, Start, CStr, Legal;
      RowFits(i);
      ghost var row := Row(cells[..], ENV_VAL_MAX, MAX_ENV, i);
      ghost var text := Rows()[i];
      RowReads(row, text);
      var j := 0;
      var c := GetByte(cells, ENV_VAL_MAX, MAX_ENV, i, 0);
      while c != 0 && c != EQ && j < |name|
        invariant 0 <= j <= |name| && j <= |text| && text[..j] == name[..j] && c == row[j]
        decreases |name| - j
      {
        if c != name[j] {
          NoMatchAt(text, name, j);
          return false;
        }
        j := j + 1;
        c := GetByte(cells, ENV_VAL_MAX, MAX_ENV, i, j);
      }
      r := j == |name| && c == EQ;
      MatchAt(text, name, j, c);
    }

    /** The bytes of a row, read up to its terminator, are its text. */
    lemma RowReads(row: seq<byte>, text: Text)
      requires text == CStr(row) && |text| < |row|
      ensures row[|text|] == 0 && forall j :: 0 <= j < |text| ==> row[j] == text[j] != 0
    {
      RowBytes(row);
      assert forall j :: 0 <= j < |text| ==> row[..|text|][j] == row[j];
    }

    lemma NoMatchAt(text: Text, name: Text, j: nat)
      requires j < |text| && j < |name| && text[j] != name[j]
      ensures !Matches(text, name)
    {
      assert |text| > |name| ==> text[..|name|][j] == text[j];
    }

    /** What the loop has seen when it stops decides the match. */
    lemma MatchAt(text: Text, name: Text, j: nat, c: byte)
      requires Legal(name) && j <= |name| && j <= |text| && text[..j] == name[..j] && c == At(text, j)
      requires NulFree(text) && (c == 0 || c == EQ || j == |name|)
      ensures Matches(text, name) <==> j == |name| && c == EQ
    {
      if j < |name| && j < |text| {
        NoMatchAt(text, name, j);
      }
    }

    method Search(name: Text) returns (i: nat)
      requires Valid() && Legal(name)
      ensures i == FindRow(Rows(), name)
    {
      hide Refines, Matches, Legal, NulFree, Shaped;
      i := 0;
      while i < count
        invariant 0 <= i <= count
        invariant forall j :: 0 <= j < i ==> !Matches(Rows()[j], name)
      {
        var hit := MatchRow(i, name);
        if hit {
          return;
        }
        i := i + 1;
      }
    }

    /** env_get: the stored value, the exit status for "?", or the empty string. */
    method EnvGet(name: Text, status: int) returns (r: Text)
      requires Valid() && Legal(name)
      ensures r == if name in env then env[name] else if name == [63] then StatusText(status) else []
    {
      hide Refines, Legal, StatusText;
      GetReads(Rows(), names, env, name);
      var i := Search(name);
      if i < count {
        RowFits(i);
        r := GetText(cells, ENV_VAL_MAX, MAX_ENV, i, |name| + 1);
        return;
      }
      if name == [63] {
        r := StatusDigits(status);
        return;
      }
      return [];
    }

    /** The three characters of the static buffer, up to its first NUL. */
    method StatusDigits(status: int) returns (r: Text)
      ensures r == StatusText(status)
    {
      var s := new byte[4](_ => 0);
      var v := status;
      s[0] := Digit(Quotient(v, 100));
      v := Remainder(v, 100);
      s[1] := Digit(Quotient(v, 10));
      v := Remainder(v, 10);
      s[2] := Digit(v);
      s[3] := 0;
      ghost var text := s[..3];
      assert text == [s[0], s[1], s[2]];
      var n := 0;
      while s[n] != 0
        invariant 0 <= n <= 3 && s[3] == 0 && s[..3] == text && NulFree(text[..n])
        decreases 3 - n
      {
        assert text[n] == s[n];
        assert text[..n + 1] == text[..n] + [text[n]];
        n := n + 1;
      }
      r := s[..n];
      assert n < 3 ==> text[n] == s[n];
      assert r == text[..n];
      CStrIs(text, n);
    }

    method EnvSet(name: Text, value: Text)
      requires Valid() && Legal(name) && NulFree(value)
      modifies this, cells
      ensures Valid() && env == SetMap(old(env), Assignment(name, value))
    {
      hide Refines, FindRow, Shaped;
      ghost var a := Assignment(name, value);
      SetRefines(Rows(), names, env, a);
      var i := Search(name);
      names := NamesAfter(Rows(), names, a);
      env := SetMap(env, a);
      if |name| + 1 + |value| >= ENV_VAL_MAX {
        return;
      }
      if i < count {
        Overwrite(i, name, value);
      } else if count < MAX_ENV {
        Append(name, value);
      }
    }

    /** The value of a row that was found is overwritten in place. */
    method Overwrite(i: nat, name: Text, value: Text)
      requires Shaped(cells[..], ENV_VAL_MAX, MAX_ENV) && i < count <= MAX_ENV && NulFree(value)
      requires Matches(Rows()[i], name) && |name| + 1 + |value| < ENV_VAL_MAX
      modifies cells
      ensures Shaped(cells[..], ENV_VAL_MAX, MAX_ENV) && Rows() == old(Rows())[i := RowOf(name, value)]
    {
      hide Row, Start, CStr;
      ghost var before := cells[..];
      FrontIsName(Row(before, ENV_VAL_MAX, MAX_ENV, i), name);
      PutText(cells, ENV_VAL_MAX, MAX_ENV, i, |name| + 1, value);
      TextsUpdate(before, cells[..], ENV_VAL_MAX, MAX_ENV, count, i);
    }

    lemma FrontIsName(row: seq<byte>, name: Text)
      requires Matches(CStr(row), name) && |name| + 1 <= |row|
      ensures row[..|name| + 1] == name + [EQ] && NulFree(name + [EQ])
    {
      hide CStr;
      CStrLength(row);
      var text := CStr(row);
      var n := |name|;
      assert row[..n + 1] == row[..|text|][..n + 1];
      assert text[..n + 1] == text[..n] + [text[n]];
      assert forall j :: 0 <= j < n + 1 ==> (name + [EQ])[j] == text[..n + 1][j] == text[j];
    }

    /** A new row: the name, an equals sign and the value, written one after the other. */
    method Append(name: Text, value: Text)
      requires Shaped(cells[..], ENV_VAL_MAX, MAX_ENV) && count < MAX_ENV && Legal(name) && NulFree(value)
      requires |name| + 1 + |value| < ENV_VAL_MAX
      modifies this`count, cells
      ensures Shaped(cells[..], ENV_VAL_MAX, MAX_ENV) && count == old(count) + 1 <= MAX_ENV
      ensures Rows() == old(Rows()) + [RowOf(name, value)]
    {
      hide Row, Start, CStr;
      ghost var m0 := cells[..];
      PutBytes(cells, ENV_VAL_MAX, MAX_ENV, count, 0, name);
      ghost var m1 := cells[..];
      PutBytes(cells, ENV_VAL_MAX, MAX_ENV, count, |name|, [EQ]);
      ghost var m2 := cells[..];
      Front(Row(m1, ENV_VAL_MAX, MAX_ENV, count), Row(m2, ENV_VAL_MAX, MAX_ENV, count), name);
      PutText(cells, ENV_VAL_MAX, MAX_ENV, count, |name| + 1, value);
      TextsUpdate(m0, cells[..], ENV_VAL_MAX, MAX_ENV, count, count);
      count := count + 1;
    }

    lemma Front(row: seq<byte>, row': seq<byte>, name: Text)
      requires |row| == |row'| && |name| < |row| && row[0..0 + |name|] == name && row'[..|name|] == row[..|name|]
      requires row'[|name|..|name| + 1] == [EQ] && Legal(name)
      ensures row'[..|name| + 1] == name + [EQ] && NulFree(name + [EQ])
    {
      assert row'[..|name| + 1] == row'[..|name|] + row'[|name|..|name| + 1];
    }
  }
}
