/**
 * Small building blocks shared by the page models: an Option type, JavaScript's
 * `Math.ceil(n / d)` for a positive divisor, `String.prototype.split` on one
 * character, `Array.prototype.join`, ASCII upper-casing, and the insertion-ordered
 * de-duplication that `Array.from(new Set(xs))` performs.
 */
module Common {

  datatype Option<+T> = None | Some(value: T)

  /** The outcome of an operation that may throw: its value, or the error it raises. */
  datatype Result<+T> = Success(value: T) | Failure(error: string)

  function Min(a: int, b: int): int
  {
    if a <= b then a else b
  }

  /** `Math.ceil(n / d)` for a positive divisor (JavaScript divides exactly, then rounds up). */
  function CeilDiv(n: int, d: int): (q: int)
    requires d > 0
    ensures q * d >= n
    ensures (q - 1) * d < n
  {
    var k := (-n) / d;
    assert -n == d * k + (-n) % d;
    -k
  }

  /** Multiplying by a positive factor preserves strict order, so it can be cancelled. */
  lemma CancelFactor(a: int, b: int, d: int)
    requires d > 0 && a * d < b * d
    ensures a < b
  {
  }

  /** CeilDiv(n, d) is the least q with q * d >= n. */
  lemma CeilDivLeast(n: int, d: int, k: int)
    requires d > 0 && k * d >= n
    ensures CeilDiv(n, d) <= k
  {
    var q := CeilDiv(n, d);
    assert (q - 1) * d < k * d;
    CancelFactor(q - 1, k, d);
  }

  // ---------------------------------------------------------------- strings

  /** `s.split(sep)` for a one-character separator: always at least one piece. */
  function Split(s: string, sep: char): (r: seq<string>)
    ensures |r| >= 1
    decreases |s|
  {
    if |s| == 0 then [""]
    else
      var rest := Split(s[1..], sep);
      if s[0] == sep then [""] + rest else [[s[0]] + rest[0]] + rest[1..]
  }

  /** A piece free of the separator comes back whole, and splitting resumes after the separator. */
  lemma {:induction false} SplitAfterPiece(a: string, sep: char, b: string)
    requires sep !in a
    ensures Split(a + [sep] + b, sep) == [a] + Split(b, sep)
    decreases |a|
  {
    if |a| == 0 {
      assert a + [sep] + b == [sep] + b;
      assert ([sep] + b)[1..] == b;
    } else {
      var s := a + [sep] + b;
      assert s[0] == a[0];
      assert s[1..] == a[1..] + [sep] + b;
      SplitAfterPiece(a[1..], sep, b);
      assert [a[0]] + a[1..] == a;
    }
  }

  /** A string without the separator splits into itself. */
  lemma {:induction false} SplitNoSeparator(a: string, sep: char)
    requires sep !in a
    ensures Split(a, sep) == [a]
    decreases |a|
  {
    if |a| > 0 {
      SplitNoSeparator(a[1..], sep);
      assert [a[0]] + a[1..] == a;
    }
  }

  /** `const [a, b, c] = parts`: a missing piece is undefined, modelled as the empty string. */
  function PieceOr(parts: seq<string>, i: nat): string
  {
    if i < |parts| then parts[i] else ""
  }

  /** `parts.join(sep)`. */
  function Join(parts: seq<string>, sep: string): string
  {
    if |parts| == 0 then ""
    else if |parts| == 1 then parts[0]
    else parts[0] + sep + Join(parts[1..], sep)
  }

  /** Joining separator-free pieces and splitting again gives the pieces back. */
  lemma {:induction false} SplitJoin(parts: seq<string>, sep: char)
    requires |parts| >= 1
    requires forall i :: 0 <= i < |parts| ==> sep !in parts[i]
    ensures Split(Join(parts, [sep]), sep) == parts
    decreases |parts|
  {
    if |parts| == 1 {
      SplitNoSeparator(parts[0], sep);
    } else {
      SplitJoin(parts[1..], sep);
      SplitAfterPiece(parts[0], sep, Join(parts[1..], [sep]));
      assert [parts[0]] + parts[1..] == parts;
    }
  }

  /** ASCII `toUpperCase` of one character. */
  function UpperChar(c: char): char
  {
    if 'a' <= c <= 'z' then (c as int - 'a' as int + 'A' as int) as char else c
  }

  /** ASCII `toUpperCase`. */
  function Upper(s: string): (r: string)
    ensures |r| == |s|
    ensures forall i :: 0 <= i < |s| ==> r[i] == UpperChar(s[i])
  {
    if |s| == 0 then "" else [UpperChar(s[0])] + Upper(s[1..])
  }

  /** Upper-casing character by character determines the result. */
  lemma UpperOf(s: string, t: string)
    requires |s| == |t| && forall i :: 0 <= i < |s| ==> UpperChar(s[i]) == t[i]
    ensures Upper(s) == t
  {
  }

  lemma UpperAppend(a: string, b: string)
    ensures Upper(a + b) == Upper(a) + Upper(b)
  {
  }

  // --------------------------------------------------------- ordered sets

  /** `Array.from(new Set(xs))`: the distinct elements in order of first occurrence. */
  function Distinct<T(==)>(xs: seq<T>): (r: seq<T>)
  {
    if |xs| == 0 then []
    else
      var d := Distinct(xs[..|xs| - 1]);
      if xs[|xs| - 1] in d then d else d + [xs[|xs| - 1]]
  }

  ghost predicate NoDuplicates<T>(xs: seq<T>)
  {
    forall i, j :: 0 <= i < j < |xs| ==> xs[i] != xs[j]
  }

  /** Distinct keeps exactly the elements of its input, each once, and never grows the list. */
  lemma {:induction false} DistinctProperties<T>(xs: seq<T>)
    ensures forall x :: x in Distinct(xs) <==> x in xs
    ensures NoDuplicates(Distinct(xs))
    ensures |Distinct(xs)| <= |xs|
  {
    if |xs| > 0 {
      var init := xs[..|xs| - 1];
      DistinctProperties(init);
      assert xs == init + [xs[|xs| - 1]];
    }
  }

  /** Where `x` first occurs in `xs`. */
  function IndexOf<T(==)>(xs: seq<T>, x: T): (i: nat)
    requires x in xs
    ensures i < |xs| && xs[i] == x
    ensures forall j :: 0 <= j < i ==> xs[j] != x
  {
    if xs[0] == x then 0 else 1 + IndexOf(xs[1..], x)
  }

  /** Appending to a list does not move the first occurrence of anything already in it. */
  lemma IndexOfInit<T>(init: seq<T>, last: T, x: T)
    requires x in init
    ensures IndexOf(init + [last], x) == IndexOf(init, x)
  {
    var xs := init + [last];
    var i, k := IndexOf(xs, x), IndexOf(init, x);
    assert xs[k] == x;
  }

  /** Distinct lists the values in the order in which they first occur. */
  lemma {:induction false} DistinctOrder<T>(xs: seq<T>)
    ensures forall x :: x in Distinct(xs) ==> x in xs
    ensures forall i, j :: 0 <= i < j < |Distinct(xs)| ==> IndexOf(xs, Distinct(xs)[i]) < IndexOf(xs, Distinct(xs)[j])
  {
    DistinctProperties(xs);
    if |xs| > 0 {
      var init, last := xs[..|xs| - 1], xs[|xs| - 1];
      assert xs == init + [last];
      DistinctOrder(init);
      DistinctProperties(init);
      var d := Distinct(init);
      forall i, j | 0 <= i < j < |Distinct(xs)|
        ensures IndexOf(xs, Distinct(xs)[i]) < IndexOf(xs, Distinct(xs)[j])
      {
        IndexOfInit(init, last, d[i]);
        if j < |d| {
          IndexOfInit(init, last, d[j]);
        } else {
          assert Distinct(xs)[j] == last && last !in init;
        }
      }
    }
  }

  /** Distinct has as many entries as its input has different values. */
  lemma {:induction false} DistinctCount<T>(xs: seq<T>)
    ensures |Distinct(xs)| == |set x | x in xs|
  {
    if |xs| > 0 {
      var init, last := xs[..|xs| - 1], xs[|xs| - 1];
      assert xs == init + [last];
      DistinctCount(init);
      DistinctProperties(init);
      var before := set x | x in init;
      assert (set x | x in xs) == before + {last};
      if last in init {
        assert before + {last} == before;
      } else {
        assert last !in before;
        assert Distinct(xs) == Distinct(init) + [last];
      }
    } else {
      assert (set x | x in xs) == {};
    }
  }

  /** A faculty member as the pages list them. */
  datatype Faculty = Faculty(id: string, name: string, yearsOfExperience: int)

  /** `faculty.find(f => f.id === id)`: the first member with that id. */
  function FindFaculty(roster: seq<Faculty>, id: string): (r: Option<Faculty>)
    ensures r.Some? ==> r.value in roster && r.value.id == id
    ensures r.None? <==> forall f :: f in roster ==> f.id != id
    ensures r.Some? ==> exists i :: 0 <= i < |roster| && roster[i] == r.value
                                  && forall j :: 0 <= j < i ==> roster[j].id != id
  {
    if |roster| == 0 then None
    else if roster[0].id == id then Some(roster[0])
    else
      var rest := FindFaculty(roster[1..], id);
      assert forall i :: 0 <= i < |roster| - 1 ==> roster[1..][i] == roster[i + 1];
      rest
  }
}
