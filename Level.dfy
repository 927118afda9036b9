/** The level file format: each line of a level file is one row of tiles,
    read after stripping surrounding whitespace. */
module Level {
  import opened Settings

  datatype Tile = Empty | Ground | Danger

  /** The characters Python's `str.strip()` removes (those for which
      `str.isspace()` holds). */
  predicate IsSpace(c: char) {
    c == ' ' || ('\t' <= c <= '\r') || ('\U{1C}' <= c <= '\U{1F}') ||
    c == '\U{85}' || c == '\U{A0}' || c == '\U{1680}' ||
    ('\U{2000}' <= c <= '\U{200A}') || c == '\U{2028}' || c == '\U{2029}' ||
    c == '\U{202F}' || c == '\U{205F}' || c == '\U{3000}'
  }

  /** The index of the first character at or after `i` that is not whitespace
      (or `|s|` when there is none). */
  function SkipLeft(s: string, i: nat): (r: nat)
    requires i <= |s|
    ensures i <= r <= |s|
    ensures forall k :: i <= k < r ==> IsSpace(s[k])
    ensures r < |s| ==> !IsSpace(s[r])
    decreases |s| - i
  {
    if i < |s| && IsSpace(s[i]) then SkipLeft(s, i + 1) else i
  }

  /** The index just after the last character before `j` and at or after `lo`
      that is not whitespace (or `lo` when there is none). */
  function SkipRight(s: string, lo: nat, j: nat): (r: nat)
    requires lo <= j <= |s|
    ensures lo <= r <= j
    ensures forall k :: r <= k < j ==> IsSpace(s[k])
    ensures r > lo ==> !IsSpace(s[r - 1])
    decreases j
  {
    if j > lo && IsSpace(s[j - 1]) then SkipRight(s, lo, j - 1) else j
  }

  /** Python's `line.strip()`: the line without leading and trailing whitespace. */
  function Strip(s: string): (r: string)
  {
    var i := SkipLeft(s, 0);
    s[i..SkipRight(s, i, |s|)]
  }

  /** Stripping removes only whitespace, from both ends, and leaves no
      whitespace at either end. */
  lemma StripIsSlice(s: string)
    ensures exists i, j ::
              && 0 <= i <= j <= |s| && Strip(s) == s[i..j]
              && (forall k :: 0 <= k < i ==> IsSpace(s[k]))
              && (forall k :: j <= k < |s| ==> IsSpace(s[k]))
    ensures Strip(s) != [] ==> !IsSpace(Strip(s)[0]) && !IsSpace(Strip(s)[|Strip(s)| - 1])
  {
    var i := SkipLeft(s, 0);
    var j := SkipRight(s, i, |s|);
    assert Strip(s) == s[i..j];
  }

  /** Stripping never removes a character that is not whitespace: such a
      character occurs in the stripped line iff it occurs in the line. */
  lemma StripKeeps(s: string, c: char)
    requires !IsSpace(c)
    ensures c in Strip(s) <==> c in s
  {
    var r := Strip(s);
    var i := SkipLeft(s, 0);
    var j := SkipRight(s, i, |s|);
    if c in s {
      var k :| 0 <= k < |s| && s[k] == c;
      assert i <= k < j;
      assert r[k - i] == c;
    }
  }

  /** The tile a character of a level file stands for. */
  function TileOf(c: char): Tile {
    if c == '#' then Ground
    else if c == 'D' then Danger
    else Empty
  }

  /** The row of tiles a stripped line stands for, one tile per character. */
  function ParseRow(line: string): seq<Tile> {
    seq(|line|, j requires 0 <= j < |line| => TileOf(line[j]))
  }

  /** The tile map of a level file, one row per line. */
  function ParseLevel(lines: seq<string>): seq<seq<Tile>> {
    seq(|lines|, i requires 0 <= i < |lines| => ParseRow(Strip(lines[i])))
  }

  /** Whether a line carries the player marker `p`. */
  predicate HasMarker(line: string) {
    'p' in Strip(line)
  }

  /** The player's vertical position after reading the lines when it was
      `y` before: the row of the last line with a marker, times the tile
      size, or `y` unchanged when no line has one. */
  function SpawnY(lines: seq<string>, y: int): int
    decreases |lines|
  {
    if lines == [] then y
    else if HasMarker(lines[|lines| - 1]) then (|lines| - 1) * TILE_SIZE
    else SpawnY(lines[..|lines| - 1], y)
  }

  /** Reading one more character adds its tile to the row. */
  lemma ParseRowSnoc(line: string, x: nat)
    requires x < |line|
    ensures ParseRow(line[..x + 1]) == ParseRow(line[..x]) + [TileOf(line[x])]
  {
  }

  /** Reading one more line adds its row to the map. */
  lemma ParseLevelSnoc(lines: seq<string>, y: nat)
    requires y < |lines|
    ensures ParseLevel(lines[..y + 1]) == ParseLevel(lines[..y]) + [ParseRow(Strip(lines[y]))]
  {
    assert lines[..y + 1][..y] == lines[..y];
  }

  /** Reading one more line moves the spawn point to it iff it has a marker. */
  lemma SpawnSnoc(lines: seq<string>, y: nat, d: int)
    requires y < |lines|
    ensures SpawnY(lines[..y + 1], d) == if HasMarker(lines[y]) then y * TILE_SIZE else SpawnY(lines[..y], d)
  {
    assert lines[..y + 1][..y] == lines[..y];
    assert lines[..y + 1][y] == lines[y];
  }

  /** The parsed map has one row per line, each as long as the stripped
      line, and each tile is determined by its character. */
  lemma ParseLevelShape(lines: seq<string>)
    ensures |ParseLevel(lines)| == |lines|
    ensures forall i :: 0 <= i < |lines| ==> |ParseLevel(lines)[i]| == |Strip(lines[i])|
    ensures forall i, j :: 0 <= i < |lines| && 0 <= j < |Strip(lines[i])| ==>
      (ParseLevel(lines)[i][j] == Ground <==> Strip(lines[i])[j] == '#') &&
      (ParseLevel(lines)[i][j] == Danger <==> Strip(lines[i])[j] == 'D') &&
      (ParseLevel(lines)[i][j] == Empty <==> Strip(lines[i])[j] != '#' && Strip(lines[i])[j] != 'D')
  {
  }

  /** With no marker in any line the position is left as it was. */
  lemma {:induction false} SpawnWithoutMarker(lines: seq<string>, y: int)
    requires forall i :: 0 <= i < |lines| ==> !HasMarker(lines[i])
    ensures SpawnY(lines, y) == y
    decreases |lines|
  {
    if lines != [] {
      var n := |lines| - 1;
      assert forall i :: 0 <= i < n ==> lines[..n][i] == lines[i];
      SpawnWithoutMarker(lines[..n], y);
    }
  }

  /** The spawn position is taken from the LAST line holding a marker. */
  lemma {:induction false} SpawnFromLastMarker(lines: seq<string>, y: int, i: nat)
    requires i < |lines| && HasMarker(lines[i])
    requires forall k :: i < k < |lines| ==> !HasMarker(lines[k])
    ensures SpawnY(lines, y) == i * TILE_SIZE
    decreases |lines|
  {
    var n := |lines| - 1;
    if i < n {
      assert forall k :: i < k < n ==> lines[..n][k] == lines[k];
      assert lines[..n][i] == lines[i];
      SpawnFromLastMarker(lines[..n], y, i);
    }
  }

  /** The spawn position is either the previous position or the top of a
      line holding a marker. */
  lemma {:induction false} SpawnIsMarkerRow(lines: seq<string>, y: int)
    ensures SpawnY(lines, y) == y ||
      exists i :: 0 <= i < |lines| && HasMarker(lines[i]) && SpawnY(lines, y) == i * TILE_SIZE
    decreases |lines|
  {
    if lines != [] && !HasMarker(lines[|lines| - 1]) {
      var n := |lines| - 1;
      SpawnIsMarkerRow(lines[..n], y);
      assert SpawnY(lines, y) == SpawnY(lines[..n], y);
      if SpawnY(lines, y) != y {
        var i :| 0 <= i < n && HasMarker(lines[..n][i]) && SpawnY(lines[..n], y) == i * TILE_SIZE;
        assert lines[..n][i] == lines[i];
        assert 0 <= i < |lines| && HasMarker(lines[i]) && SpawnY(lines, y) == i * TILE_SIZE;
      }
    }
  }

  /** Reading the same lines a second time does not move the spawn point. */
  lemma {:induction false} SpawnIdempotent(lines: seq<string>, y: int)
    ensures SpawnY(lines, SpawnY(lines, y)) == SpawnY(lines, y)
    decreases |lines|
  {
    if lines != [] && !HasMarker(lines[|lines| - 1]) {
      SpawnIdempotent(lines[..|lines| - 1], y);
    }
  }

  /** The example map of four lines: a ground row, an empty row, a row with one
      danger tile in the middle, and the spawn row 3 (so the player starts at 150). */
  lemma ExampleLevel()
    ensures ParseLevel(["#####\n", ".....\n", "..D..\n", "p....\n"]) ==
      [[Ground, Ground, Ground, Ground, Ground],
       [Empty, Empty, Empty, Empty, Empty],
       [Empty, Empty, Danger, Empty, Empty],
       [Empty, Empty, Empty, Empty, Empty]]
    ensures SpawnY(["#####\n", ".....\n", "..D..\n", "p....\n"], START_Y) == 150
  {
    var lines := ["#####\n", ".....\n", "..D..\n", "p....\n"];
    StripNewline(lines[0]);
    StripNewline(lines[1]);
    StripNewline(lines[2]);
    StripNewline(lines[3]);
    assert ParseRow(lines[0][..5]) == [Ground, Ground, Ground, Ground, Ground];
    assert ParseRow(lines[1][..5]) == [Empty, Empty, Empty, Empty, Empty];
    assert ParseRow(lines[2][..5]) == [Empty, Empty, Danger, Empty, Empty];
    assert ParseRow(lines[3][..5]) == [Empty, Empty, Empty, Empty, Empty];
    assert lines[3][..5][0] == 'p';
  }

  /** A line as a file yields it, ending in a newline, strips to the text
      before the newline when that text neither starts nor ends with
      whitespace. */
  lemma StripNewline(s: string)
    requires |s| >= 2 && s[|s| - 1] == '\n' && !IsSpace(s[0]) && !IsSpace(s[|s| - 2])
    ensures Strip(s) == s[..|s| - 1]
  {
    assert SkipLeft(s, 0) == 0;
    assert SkipRight(s, 0, |s| - 1) == |s| - 1;
    assert SkipRight(s, 0, |s|) == |s| - 1;
  }
}
