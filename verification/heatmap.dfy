/** The semicolon heat map: each author's punctuation tokens become 1 (a semicolon)
    or 2 (any other mark), and the first 6561 values are laid out as a square grid. */
module Heatmap {
  import opened Collections

  /** Python's `string.punctuation`. */
  const PUNCTUATION: string := "!\"#$%&'()*+,-./:;<=>?@[\\]^_`{|}~"

  /** t occurs in s starting at position i. */
  predicate OccursAt(t: string, s: string, i: int) {
    0 <= i <= |s| - |t| && s[i..i + |t|] == t
  }

  /** `t in s` for two strings: t occurs as a contiguous substring of s. */
  predicate IsSubstring(t: string, s: string) {
    exists i | 0 <= i <= |s| - |t| :: OccursAt(t, s, i)
  }

  /** `[ch for ch in tokens if ch in punctuation]`. */
  function PunctFilter(tokens: seq<string>): (marks: seq<string>)
    ensures |marks| <= |tokens|
    ensures forall i | 0 <= i < |marks| :: IsSubstring(marks[i], PUNCTUATION)
  {
    if tokens == [] then []
    else
      var rest := PunctFilter(tokens[..|tokens| - 1]);
      var t := tokens[|tokens| - 1];
      if IsSubstring(t, PUNCTUATION) then rest + [t] else rest
  }

  /** The filter keeps a token as often as it occurs when it is a substring of the
      punctuation string, and drops it otherwise. */
  lemma {:induction false} PunctFilterCount(tokens: seq<string>, t: string)
    ensures Count(PunctFilter(tokens), t) == if IsSubstring(t, PUNCTUATION) then Count(tokens, t) else 0
  {
    if tokens != [] {
      var init := tokens[..|tokens| - 1];
      PunctFilterCount(init, t);
      var rest := PunctFilter(init);
      if IsSubstring(tokens[|tokens| - 1], PUNCTUATION) {
        assert (rest + [tokens[|tokens| - 1]])[..|rest|] == rest;
      }
    }
  }

  /** The filter keeps order: filtering two pieces and joining the results is
      filtering the joined tokens, so the marks appear in the order of the text. */
  lemma {:induction false} PunctFilterAppend(a: seq<string>, b: seq<string>)
    ensures PunctFilter(a + b) == PunctFilter(a) + PunctFilter(b)
    decreases |b|
  {
    if b != [] {
      var b' := b[..|b| - 1];
      PunctFilterAppend(a, b');
      assert (a + b)[..|a + b| - 1] == a + b';
      assert (a + b)[|a + b| - 1] == b[|b| - 1];
    } else {
      assert a + b == a;
    }
  }

  /** For a one-character token the substring test is a membership test. */
  lemma SingleCharSubstring(c: char, s: string)
    ensures IsSubstring([c], s) <==> c in s
  {
    if c in s {
      var i :| 0 <= i < |s| && s[i] == c;
      assert s[i..i + 1] == [c];
      assert OccursAt([c], s, i);
    }
    if IsSubstring([c], s) {
      var t: string := [c];
      assert |t| == 1;
      var i :| 0 <= i <= |s| - 1 && OccursAt(t, s, i);
      assert s[i..i + 1] == t;
      assert t[0] == s[i];
    }
  }

  /** The test is on substrings, not characters: a run of adjacent marks such as
      "()" is kept as one punctuation token. */
  lemma AdjacentMarksKept()
    ensures IsSubstring("()", PUNCTUATION)
  {
    var p := PUNCTUATION;
    assert p[7] == '(' && p[8] == ')';
    assert p[7..9] == "()";
    assert OccursAt("()", p, 7);
  }

  /** `make_punct_dict`: the same authors in the same order, each with the
      punctuation tokens of its corpus. */
  method MakePunctDict(stringsByAuthor: seq<Entry<string, seq<string>>>)
    returns (punctByAuthor: seq<Entry<string, seq<string>>>)
    requires IsDict(stringsByAuthor)
    ensures Keys(punctByAuthor) == Keys(stringsByAuthor)
    ensures forall i | 0 <= i < |punctByAuthor| ::
              punctByAuthor[i].value == PunctFilter(stringsByAuthor[i].value)
  {
    punctByAuthor := [];
    var i := 0;
    while i < |stringsByAuthor|
      invariant 0 <= i <= |stringsByAuthor|
      invariant |punctByAuthor| == i
      invariant forall j | 0 <= j < i ::
                  punctByAuthor[j] == Entry(stringsByAuthor[j].key, PunctFilter(stringsByAuthor[j].value))
    {
      var author := stringsByAuthor[i].key;
      assert author !in Keys(punctByAuthor) by {
        forall j | 0 <= j < i ensures Keys(punctByAuthor)[j] != author {
          assert Keys(stringsByAuthor)[j] != Keys(stringsByAuthor)[i];
        }
      }
      PutNewKey(punctByAuthor, author, PunctFilter(stringsByAuthor[i].value));
      punctByAuthor := Put(punctByAuthor, author, PunctFilter(stringsByAuthor[i].value));
      i := i + 1;
    }
    SameKeys(punctByAuthor, stringsByAuthor);
  }

  /** `convert_punct_to_number`: one value per mark of the author, 1 for a semicolon
      and 2 for anything else; as many 1s as semicolons. */
  method ConvertPunctToNumber(punctByAuthor: seq<Entry<string, seq<string>>>, author: string)
    returns (heat: seq<int>)
    requires author in Keys(punctByAuthor)
    ensures |heat| == |Lookup(punctByAuthor, author)|
    ensures forall i | 0 <= i < |heat| :: heat[i] == (if Lookup(punctByAuthor, author)[i] == ";" then 1 else 2)
    ensures Count(heat, 1) == Count(Lookup(punctByAuthor, author), ";")
    ensures Count(heat, 1) + Count(heat, 2) == |heat|
  {
    var marks := Lookup(punctByAuthor, author);
    heat := [];
    var i := 0;
    while i < |marks|
      invariant 0 <= i <= |marks|
      invariant |heat| == i
      invariant forall j | 0 <= j < i :: heat[j] == (if marks[j] == ";" then 1 else 2)
      invariant Count(heat, 1) == Count(marks[..i], ";")
      invariant Count(heat, 1) + Count(heat, 2) == i
    {
      var val;
      if marks[i] == ";" {
        val := 1;
      } else {
        val := 2;
      }
      assert marks[..i + 1][..i] == marks[..i];
      assert (heat + [val])[..i] == heat;
      heat := heat + [val];
      i := i + 1;
    }
    assert marks[..i] == marks;
  }

  // ---------------------------------------------------------------------
  // The reshape in `main`.

  const GRID_CELLS: nat := 6561

  function Square(s: nat): nat { s * s }

  /** `int(math.sqrt(n))`: the integer square root. */
  method ISqrt(n: nat) returns (r: nat)
    ensures Square(r) <= n < Square(r + 1)
  {
    r := 0;
    while Square(r + 1) <= n
      invariant Square(r) <= n
      decreases n - Square(r)
    {
      r := r + 1;
    }
  }

  lemma SquareMonotone(a: nat, b: nat)
    requires a <= b
    ensures Square(a) <= Square(b)
  {
    assert a * a <= a * b <= b * b;
  }

  /** A number has at most one integer square root. */
  lemma SquareRootUnique(r: nat, s: nat, n: nat)
    requires Square(r) <= n < Square(r + 1) && Square(s) == n
    ensures r == s
  {
    if s < r {
      SquareMonotone(s + 1, r);
    } else if s > r {
      SquareMonotone(r + 1, s);
    }
  }

  lemma RowBounds(r: nat, c: nat, side: nat)
    requires r < side && c < side
    ensures r * side + c < Square(side)
  {
    assert (side - r - 1) * side >= 0;
    assert (side - r - 1) * side == side * side - r * side - side;
  }

  /** Row r of a side x side grid stored in row-major order. */
  function Row(values: seq<int>, side: nat, r: nat): (row: seq<int>)
    requires Square(side) == |values| && r < side
    ensures |row| == side
    ensures forall c | 0 <= c < side :: r * side + c < |values| && row[c] == values[r * side + c]
  {
    RowBounds(r, side - 1, side);
    values[r * side..r * side + side]
  }

  /** The rows of a side x side grid read off `values` in row-major order. */
  function Rows(values: seq<int>, side: nat): (grid: seq<seq<int>>)
    requires Square(side) == |values|
    ensures |grid| == side
    ensures forall r | 0 <= r < side :: grid[r] == Row(values, side, r)
  {
    seq(side, r requires 0 <= r < side => Row(values, side, r))
  }

  /** `np.array(heat[:6561]).reshape(s, s)` with `s = int(math.sqrt(len(arr)))`:
      numpy raises ValueError (None) unless s * s is the length. */
  method HeatGrid(heat: seq<int>) returns (grid: Option<seq<seq<int>>>)
    ensures grid.Some? <==> exists s: nat | s <= |Take(heat, GRID_CELLS)| :: Square(s) == |Take(heat, GRID_CELLS)|
    ensures grid.Some? ==> Square(|grid.value|) == |Take(heat, GRID_CELLS)| &&
                           grid.value == Rows(Take(heat, GRID_CELLS), |grid.value|)
    ensures |heat| >= GRID_CELLS ==> grid.Some? && |grid.value| == 81
  {
    var arr := Take(heat, GRID_CELLS);
    var side := ISqrt(|arr|);
    if |heat| >= GRID_CELLS {
      assert Square(81) == |arr|;
      SquareRootUnique(side, 81, |arr|);
    }
    if Square(side) != |arr| {
      forall s: nat | s <= |arr| ensures Square(s) != |arr| {
        if Square(s) == |arr| {
          SquareRootUnique(side, s, |arr|);
        }
      }
      return None;
    }
    assert side <= |arr| by {
      if side > 1 {
        SquareMonotone(1, side);
        assert side * 1 <= side * side;
      }
    }
    return Some(Rows(arr, side));
  }
}
