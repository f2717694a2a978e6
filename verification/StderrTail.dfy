/** The rolling tail of the encoder's diagnostic output. Lines are UTF-8 bytes. */
module StderrTail {
  import opened Common

  const TAIL_LINES := 32
  const TAIL_BYTES := 16 * 1024
  const MAX_LINE_BYTES := 4 * 1024

  type Line = seq<Byte>

  /** `is_char_boundary`. */
  predicate Boundary(line: Line, i: nat) {
    i == 0 || i == |line| || (i < |line| && !(0x80 <= line[i] < 0xC0))
  }

  /** The largest boundary not after `i`. */
  function BoundaryAtOrBefore(line: Line, i: nat): (b: nat)
    ensures b <= i && Boundary(line, b)
    ensures forall j :: b < j <= i ==> !Boundary(line, j)
  {
    if Boundary(line, i) then i else BoundaryAtOrBefore(line, i - 1)
  }

  /** An overlong line is cut at a character boundary and marked with three dots. */
  function Truncated(line: Line): (r: Line)
    ensures |r| <= MAX_LINE_BYTES + 3
  {
    if |line| > MAX_LINE_BYTES then line[..BoundaryAtOrBefore(line, MAX_LINE_BYTES)] + [46, 46, 46] else line
  }

  /**
   * What is kept of a line: all of it up to 4096 bytes, else the longest front within them
   * that ends between characters, and three dots.
   */
  lemma TruncatedIs(line: Line, k: nat)
    ensures |line| <= 4096 ==> Truncated(line) == line
    ensures |line| > 4096 ==>
              var cut := |Truncated(line)| - 3;
              && 0 <= cut <= 4096 && Boundary(line, cut)
              && Truncated(line) == line[..cut] + [46, 46, 46]
              && (k <= 4096 && Boundary(line, k) ==> k <= cut)
  {
  }

  /** Bytes of the lines, each with its newline. */
  function Sum(lines: seq<Line>): nat {
    if lines == [] then 0 else |lines[0]| + 1 + Sum(lines[1..])
  }

  predicate Fits(lines: seq<Line>) {
    |lines| <= 32 && Sum(lines) <= 16_384
  }

  /** The longest suffix that fits. */
  function Tail(history: seq<Line>): seq<Line> {
    if Fits(history) then history else Tail(history[1..])
  }

  lemma {:induction false} SumAppend(a: seq<Line>, b: seq<Line>)
    ensures Sum(a + b) == Sum(a) + Sum(b)
  {
    if a == [] {
      assert a + b == b;
    } else {
      assert (a + b)[1..] == a[1..] + b;
      SumAppend(a[1..], b);
    }
  }

  /** What the tail is: a fitting suffix, and no longer suffix fits. */
  lemma {:induction false} TailIsLongest(history: seq<Line>, k: nat)
    requires k <= |history|
    ensures Fits(Tail(history)) && |Tail(history)| <= |history|
    ensures Tail(history) == history[|history| - |Tail(history)|..]
    ensures Fits(history[k..]) ==> |history| - k <= |Tail(history)|
    decreases |history|
  {
    if Fits(history) {
      assert history[0..] == history;
    } else {
      TailIsLongest(history[1..], if k > 0 then k - 1 else 0);
      if k > 0 {
        assert history[1..][k - 1..] == history[k..];
      } else {
        assert history[0..] == history;
      }
    }
  }

  /** Dropping what did not fit before loses nothing once another line arrives. */
  lemma {:induction false} TailSnoc(history: seq<Line>, line: Line)
    ensures Tail(history + [line]) == Tail(Tail(history) + [line])
    decreases |history|
  {
    if !Fits(history) {
      SumAppend(history, [line]);
      assert !Fits(history + [line]);
      assert (history + [line])[1..] == history[1..] + [line];
      TailSnoc(history[1..], line);
    }
  }

  lemma SumOne(line: Line)
    ensures Sum([line]) == |line| + 1
  {
  }

  lemma NewestFits(line: Line)
    requires |line| <= MAX_LINE_BYTES + 3
    ensures Fits([line])
  {
  }

  /** The newest line is always kept. */
  lemma {:induction false} TailKeepsNewest(history: seq<Line>, line: Line)
    requires |line| <= MAX_LINE_BYTES + 3
    ensures |Tail(history + [line])| >= 1 && Tail(history + [line])[|Tail(history + [line])| - 1] == line
    decreases |history|
  {
    NewestFits(line);
    if history == [] {
      assert history + [line] == [line];
    } else if !Fits(history + [line]) {
      assert (history + [line])[1..] == history[1..] + [line];
      TailKeepsNewest(history[1..], line);
    }
  }

  class StderrTail {
    var lines: seq<Line>
    var bytes: nat
    /** Everything pushed so far, truncated. */
    ghost var history: seq<Line>

    ghost predicate Valid()
      reads this
    {
      lines == Tail(history) && bytes == Sum(lines)
    }

    constructor ()
      ensures Valid() && history == []
    {
      lines, bytes, history := [], 0, [];
    }

    method PushLine(line: Line)
      requires Valid()
      modifies this
      ensures Valid() && history == old(history) + [Truncated(line)]
      ensures Fits(lines) && lines != [] && lines[|lines| - 1] == Truncated(line)
    {
      var cut := Truncate(line);
      TailSnoc(history, cut);
      TailKeepsNewest(history, cut);
      SumAppend(lines, [cut]);
      SumOne(cut);
      history := history + [cut];
      bytes := bytes + |cut| + 1;
      lines := lines + [cut];
      while |lines| > TAIL_LINES || bytes > TAIL_BYTES
        invariant bytes == Sum(lines) && Tail(lines) == Tail(history)
        invariant history == old(history) + [cut]
        decreases |lines|
      {
        var old0 := lines[0];
        assert |old0| + 1 <= bytes;
        lines := lines[1..];
        bytes := SaturatingSub(bytes, |old0| + 1);
      }
      TailIsLongest(history, 0);
    }

    /** The cut at a character boundary. */
    method Truncate(line: Line) returns (cut: Line)
      ensures cut == Truncated(line)
    {
      cut := line;
      if |line| > MAX_LINE_BYTES {
        var end := MAX_LINE_BYTES;
        while end > 0 && !Boundary(line, end)
          invariant 0 <= end <= MAX_LINE_BYTES
          invariant BoundaryAtOrBefore(line, MAX_LINE_BYTES) == BoundaryAtOrBefore(line, end)
        {
          end := end - 1;
        }
        cut := line[..end] + [46, 46, 46];
      }
    }
  }

  function SaturatingSub(a: nat, b: nat): nat {
    if b <= a then a - b else 0
  }
}
