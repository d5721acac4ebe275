/** The calendar's (month, year) cursor and its previous/next steps. */
module MonthCursor {

  /** `month` is 0-based, as `config.currentMonth` is. */
  datatype Cursor = Cursor(month: int, year: int)

  predicate Valid(c: Cursor) {
    0 <= c.month < 12
  }

  /** Months elapsed since January of year 0: the cursor as one number. */
  function Index(c: Cursor): int {
    12 * c.year + c.month
  }

  /** The cursor of a month count, the inverse of Index. */
  function FromIndex(i: int): (c: Cursor)
    ensures Valid(c) && Index(c) == i
  {
    Cursor(i % 12, i / 12)
  }

  /** The previous-month button: decrement the month; below 0 it becomes 11 and the
      year is decremented. */
  function Prev(c: Cursor): (r: Cursor)
    requires Valid(c)
    ensures Valid(r)
    ensures Index(r) == Index(c) - 1
  {
    var m := c.month - 1;
    if m < 0 then Cursor(11, c.year - 1) else Cursor(m, c.year)
  }

  /** The next-month button: increment the month; above 11 it becomes 0 and the
      year is incremented. */
  function Next(c: Cursor): (r: Cursor)
    requires Valid(c)
    ensures Valid(r)
    ensures Index(r) == Index(c) + 1
  {
    var m := c.month + 1;
    if m > 11 then Cursor(0, c.year + 1) else Cursor(m, c.year)
  }

  /** Moving by `delta` months at once, for any integer `delta`. */
  function Advance(c: Cursor, delta: int): (r: Cursor)
    ensures Valid(r)
  {
    FromIndex(Index(c) + delta)
  }

  /** `k` presses of the next-month button. */
  function NextN(c: Cursor, k: nat): (r: Cursor)
    requires Valid(c)
    ensures Valid(r)
  {
    if k == 0 then c else Next(NextN(c, k - 1))
  }

  /** `k` presses of the previous-month button. */
  function PrevN(c: Cursor, k: nat): (r: Cursor)
    requires Valid(c)
    ensures Valid(r)
  {
    if k == 0 then c else Prev(PrevN(c, k - 1))
  }

  // ---------------------------------------------------------------------------
  // Lemmas

  /** A valid cursor is determined by its month count. */
  lemma IndexInjective(a: Cursor, b: Cursor)
    requires Valid(a) && Valid(b)
    ensures Index(a) == Index(b) <==> a == b
  {
  }

  /** The year changes exactly when the month wraps: from January back to December
      of the year before, and from December on to January of the year after. */
  lemma WrapAround(c: Cursor)
    requires Valid(c)
    ensures c.month == 0 ==> Prev(c) == Cursor(11, c.year - 1)
    ensures c.month != 0 ==> Prev(c) == Cursor(c.month - 1, c.year)
    ensures c.month == 11 ==> Next(c) == Cursor(0, c.year + 1)
    ensures c.month != 11 ==> Next(c) == Cursor(c.month + 1, c.year)
  {
  }

  /** Previous then next, and next then previous, restore the cursor. */
  lemma PrevNextInverse(c: Cursor)
    requires Valid(c)
    ensures Next(Prev(c)) == c
    ensures Prev(Next(c)) == c
  {
    IndexInjective(Next(Prev(c)), c);
    IndexInjective(Prev(Next(c)), c);
  }

  /** `k` next presses move the cursor `k` months forward. */
  lemma {:induction false} NextNIsAdvance(c: Cursor, k: nat)
    requires Valid(c)
    ensures NextN(c, k) == Advance(c, k)
  {
    if k > 0 {
      NextNIsAdvance(c, k - 1);
    }
    IndexInjective(NextN(c, k), Advance(c, k));
  }

  /** `k` previous presses move the cursor `k` months back. */
  lemma {:induction false} PrevNIsAdvance(c: Cursor, k: nat)
    requires Valid(c)
    ensures PrevN(c, k) == Advance(c, -(k as int))
  {
    if k > 0 {
      PrevNIsAdvance(c, k - 1);
    }
    IndexInjective(PrevN(c, k), Advance(c, -(k as int)));
  }

  /** Twelve presses either way change only the year, by one. */
  lemma TwelvePresses(c: Cursor)
    requires Valid(c)
    ensures NextN(c, 12) == Cursor(c.month, c.year + 1)
    ensures PrevN(c, 12) == Cursor(c.month, c.year - 1)
  {
    NextNIsAdvance(c, 12);
    PrevNIsAdvance(c, 12);
    IndexInjective(Advance(c, 12), Cursor(c.month, c.year + 1));
    IndexInjective(Advance(c, -12 as int), Cursor(c.month, c.year - 1));
  }
}

/** The phrase-of-the-day records and the index that walks through them. */
module Phrases {
  import opened Options

  datatype Phrase = Phrase(id: int, phrase: string, translation: string, pronunciation: string,
                           audioUrl: Option<string>)

  /** `(index + 1) % length`. Both operands are non-negative, so JavaScript's `%`
      and Dafny's agree. */
  function NextIndex(i: int, n: int): (r: int)
    requires 0 <= i < n
    ensures 0 <= r < n
    ensures r == if i == n - 1 then 0 else i + 1
  {
    (i + 1) % n
  }

  /** `(index - 1 + length) % length`. */
  function PrevIndex(i: int, n: int): (r: int)
    requires 0 <= i < n
    ensures 0 <= r < n
    ensures r == if i == 0 then n - 1 else i - 1
  {
    (i - 1 + n) % n
  }

  /** `k` presses of the next-phrase button from index `i`. */
  function NextIter(i: int, n: int, k: nat): (r: int)
    requires 0 <= i < n
    ensures 0 <= r < n
  {
    if k == 0 then i else NextIndex(NextIter(i, n, k - 1), n)
  }

  /** `k` presses of the previous-phrase button from index `i`. */
  function PrevIter(i: int, n: int, k: nat): (r: int)
    requires 0 <= i < n
    ensures 0 <= r < n
  {
    if k == 0 then i else PrevIndex(PrevIter(i, n, k - 1), n)
  }

  // ---------------------------------------------------------------------------
  // Lemmas

  /** Next after previous, and previous after next, return to the same phrase. */
  lemma NextPrevInverse(i: int, n: int)
    requires 0 <= i < n
    ensures NextIndex(PrevIndex(i, n), n) == i
    ensures PrevIndex(NextIndex(i, n), n) == i
  {
  }

  /** Up to one full turn, `k` next presses add `k` to the index, wrapping once. */
  lemma {:induction false} NextIterWithinTurn(i: int, n: int, k: nat)
    requires 0 <= i < n && k <= n
    ensures NextIter(i, n, k) == if i + k < n then i + k else i + k - n
  {
    if k > 0 {
      NextIterWithinTurn(i, n, k - 1);
    }
  }

  /** Up to one full turn, `k` previous presses subtract `k`, wrapping once. */
  lemma {:induction false} PrevIterWithinTurn(i: int, n: int, k: nat)
    requires 0 <= i < n && k <= n
    ensures PrevIter(i, n, k) == if k <= i then i - k else i - k + n
  {
    if k > 0 {
      PrevIterWithinTurn(i, n, k - 1);
    }
  }

  /** Pressing next (or previous) as many times as there are phrases comes back to
      the starting phrase. */
  lemma FullTurn(i: int, n: int)
    requires 0 <= i < n
    ensures NextIter(i, n, n) == i
    ensures PrevIter(i, n, n) == i
  {
    NextIterWithinTurn(i, n, n);
    PrevIterWithinTurn(i, n, n);
  }

  /** Presses add up: `a` presses and then `b` more are `a + b` presses. */
  lemma {:induction false} NextIterAdd(i: int, n: int, a: nat, b: nat)
    requires 0 <= i < n
    ensures NextIter(NextIter(i, n, a), n, b) == NextIter(i, n, a + b)
  {
    if b > 0 {
      NextIterAdd(i, n, a, b - 1);
    }
  }

  /** So the walk is periodic with period `n`. */
  lemma NextIterPeriodic(i: int, n: int, k: nat)
    requires 0 <= i < n
    ensures NextIter(i, n, k + n) == NextIter(i, n, k)
  {
    NextIterAdd(i, n, k, n);
    FullTurn(NextIter(i, n, k), n);
  }
}
