/** String operations the scorer relies on: ASCII lower-casing (Python's
    `str.lower` restricted to ASCII letters), removal of one character
    (`str.replace(c, '')`) and splitting on a separator (`str.split(sep)`),
    together with the facts about them that the scoring proofs use. */
module Text {

  predicate IsUpper(c: char) {
    'A' <= c <= 'Z'
  }

  function LowerChar(c: char): char {
    if IsUpper(c) then (c as int - 'A' as int + 'a' as int) as char else c
  }

  /** `s.lower()` on ASCII letters. */
  function Lower(s: string): string {
    if |s| == 0 then "" else [LowerChar(s[0])] + Lower(s[1..])
  }

  /** `s.replace(c, '')`. */
  function Remove(s: string, c: char): string {
    if |s| == 0 then ""
    else (if s[0] == c then "" else [s[0]]) + Remove(s[1..], c)
  }

  function Count(s: string, c: char): nat {
    if |s| == 0 then 0 else (if s[0] == c then 1 else 0) + Count(s[1..], c)
  }

  /** Re-assembles the pieces produced by `Split`, putting `sep` between them. */
  function Join(parts: seq<string>, sep: char): string
    requires |parts| >= 1
  {
    if |parts| == 1 then parts[0] else parts[0] + [sep] + Join(parts[1..], sep)
  }

  /** `s.split(sep)`: the maximal `sep`-free pieces of `s`, in order. Like
      Python, the empty string splits into one empty piece. */
  function Split(s: string, sep: char): (parts: seq<string>)
    ensures |parts| == Count(s, sep) + 1
    ensures forall i :: 0 <= i < |parts| ==> sep !in parts[i]
    ensures Join(parts, sep) == s
  {
    if |s| == 0 then [""]
    else
      var rest := Split(s[1..], sep);
      if s[0] == sep then
        assert Join([""] + rest, sep) == [sep] + Join(rest, sep) by {
          assert ([""] + rest)[1..] == rest;
        }
        assert s == [s[0]] + s[1..];
        [""] + rest
      else
        JoinConsHead(s[0], rest, sep);
        assert s == [s[0]] + s[1..];
        [[s[0]] + rest[0]] + rest[1..]
  }

  /** Prepending a character to the first piece prepends it to the joined text. */
  lemma JoinConsHead(c: char, parts: seq<string>, sep: char)
    requires |parts| >= 1
    ensures Join([[c] + parts[0]] + parts[1..], sep) == [c] + Join(parts, sep)
  {
    var q := [[c] + parts[0]] + parts[1..];
    assert q[1..] == parts[1..];
  }

  // ---------------------------------------------------------------------
  // Facts about Split: it inverts Join on sep-free pieces.

  /** Splitting text that starts with a sep-free piece and a separator yields
      that piece followed by the split of the remainder. */
  lemma {:induction false} SplitAfterPiece(x: string, rest: string, sep: char)
    requires sep !in x
    ensures Split(x + [sep] + rest, sep) == [x] + Split(rest, sep)
    decreases |x|
  {
    if |x| == 0 {
      assert x + [sep] + rest == [sep] + rest;
      assert ([sep] + rest)[1..] == rest;
    } else {
      var s := x + [sep] + rest;
      assert s[0] == x[0] && s[1..] == x[1..] + [sep] + rest;
      SplitAfterPiece(x[1..], rest, sep);
      assert [x[0]] + x[1..] == x;
    }
  }

  /** A sep-free text splits into itself alone. */
  lemma {:induction false} SplitWithoutSep(x: string, sep: char)
    requires sep !in x
    ensures Split(x, sep) == [x]
    decreases |x|
  {
    if |x| > 0 {
      SplitWithoutSep(x[1..], sep);
      assert [x[0]] + x[1..] == x;
    }
  }

  /** Round trip: joining sep-free pieces and splitting again gives the pieces back. */
  lemma {:induction false} SplitJoin(parts: seq<string>, sep: char)
    requires |parts| >= 1
    requires forall i :: 0 <= i < |parts| ==> sep !in parts[i]
    ensures Split(Join(parts, sep), sep) == parts
    decreases |parts|
  {
    if |parts| == 1 {
      SplitWithoutSep(parts[0], sep);
    } else {
      SplitJoin(parts[1..], sep);
      SplitAfterPiece(parts[0], Join(parts[1..], sep), sep);
      assert [parts[0]] + parts[1..] == parts;
    }
  }

  // ---------------------------------------------------------------------
  // Facts about Lower and Remove.

  lemma {:induction false} LowerLength(s: string)
    ensures |Lower(s)| == |s|
  {
    if |s| > 0 {
      LowerLength(s[1..]);
    }
  }

  /** Lower-cased text has no upper-case ASCII letter, and lower-casing it again changes nothing. */
  lemma {:induction false} LowerIdempotent(s: string)
    ensures forall i :: 0 <= i < |Lower(s)| ==> !IsUpper(Lower(s)[i])
    ensures Lower(Lower(s)) == Lower(s)
  {
    if |s| > 0 {
      LowerIdempotent(s[1..]);
      var r := Lower(s);
      assert r == [LowerChar(s[0])] + Lower(s[1..]);
      assert r[1..] == Lower(s[1..]);
    }
  }

  lemma {:induction false} LowerDistributes(a: string, b: string)
    ensures Lower(a + b) == Lower(a) + Lower(b)
    decreases |a|
  {
    if |a| > 0 {
      assert (a + b)[1..] == a[1..] + b;
      LowerDistributes(a[1..], b);
    } else {
      assert a + b == b;
    }
  }

  /** Only the empty text lower-cases to the empty text. */
  lemma LowerEmpty(s: string)
    ensures Lower(s) == "" <==> s == ""
  {
    LowerLength(s);
  }

  lemma {:induction false} RemoveDistributes(a: string, b: string, c: char)
    ensures Remove(a + b, c) == Remove(a, c) + Remove(b, c)
    decreases |a|
  {
    if |a| > 0 {
      assert (a + b)[1..] == a[1..] + b;
      RemoveDistributes(a[1..], b, c);
    } else {
      assert a + b == b;
    }
  }

  /** After removal the character is gone, the text is shorter by the number
      of its occurrences, and text without the character is unchanged. */
  lemma {:induction false} RemoveSpec(s: string, c: char)
    ensures c !in Remove(s, c)
    ensures |Remove(s, c)| == |s| - Count(s, c)
    ensures c !in s ==> Remove(s, c) == s
    ensures forall d :: d in Remove(s, c) ==> d in s
  {
    if |s| > 0 {
      RemoveSpec(s[1..], c);
      assert s == [s[0]] + s[1..];
    }
  }

  /** Removal drops every occurrence of the character and keeps every other
      character exactly as often as it occurs in the text. */
  lemma {:induction false} RemoveCounts(s: string, c: char)
    ensures multiset(Remove(s, c)) == multiset(s)[c := 0]
  {
    if |s| > 0 {
      RemoveCounts(s[1..], c);
      assert s == [s[0]] + s[1..];
      assert multiset(s) == multiset{s[0]} + multiset(s[1..]);
      var head := if s[0] == c then "" else [s[0]];
      assert Remove(s, c) == head + Remove(s[1..], c);
      assert multiset(Remove(s, c)) == multiset(head) + multiset(Remove(s[1..], c));
    }
  }

  /** Text without upper-case ASCII letters is its own lower-case form. */
  lemma {:induction false} LowerOfLowerFree(s: string)
    requires forall i :: 0 <= i < |s| ==> !IsUpper(s[i])
    ensures Lower(s) == s
  {
    if |s| > 0 {
      LowerOfLowerFree(s[1..]);
      assert [s[0]] + s[1..] == s;
    }
  }
}
