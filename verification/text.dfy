/**
 * Strings for the admin table: `toLowerCase` and `includes` as the search
 * uses them; `Join` and `JoinLines`, the comma template literal and the
 * line breaks that build the export; and `Split`, the reader in which the
 * lemmas about reading the export back are stated.
 */
module Text {

  predicate IsUpper(c: char)
  {
    'A' <= c <= 'Z'
  }

  /** `toLowerCase` on one character; only the ASCII letters are mapped. */
  function LowerChar(c: char): (r: char)
    ensures !IsUpper(r)
    ensures IsUpper(c) ==> r as int == c as int + 32
    ensures !IsUpper(c) ==> r == c
  {
    if IsUpper(c) then (c as int - 'A' as int + 'a' as int) as char else c
  }

  /** `s.toLowerCase()`: same length, no upper-case letter left, other characters kept. */
  function Lower(s: string): (r: string)
    ensures |r| == |s|
    ensures forall i :: 0 <= i < |r| ==> !IsUpper(r[i])
    ensures forall i :: 0 <= i < |s| && !IsUpper(s[i]) ==> r[i] == s[i]
    ensures forall i :: 0 <= i < |s| && IsUpper(s[i]) ==> r[i] as int == s[i] as int + 32
  {
    seq(|s|, i requires 0 <= i < |s| => LowerChar(s[i]))
  }

  /** `a` and `b` differ at most in the case of ASCII letters. */
  predicate SameIgnoringCase(a: string, b: string)
  {
    |a| == |b| && forall i :: 0 <= i < |a| ==> LowerChar(a[i]) == LowerChar(b[i])
  }

  /** Strings that differ only in letter case have the same lower-case form, and lowering twice changes nothing. */
  lemma LowerIgnoresCase(a: string, b: string)
    ensures SameIgnoringCase(a, b) <==> Lower(a) == Lower(b)
    ensures Lower(Lower(a)) == Lower(a)
  {
    if Lower(a) == Lower(b) {
      assert forall i :: 0 <= i < |a| ==> Lower(a)[i] == Lower(b)[i];
    }
  }

  /** `s.includes(sub)`: `sub` is a prefix of some suffix of `s`. */
  predicate Contains(s: string, sub: string)
    decreases |s|
  {
    sub <= s || (s != [] && Contains(s[1..], sub))
  }

  /** `sub` sits in `s` starting at index `i`. */
  predicate OccursAt(s: string, sub: string, i: int)
  {
    0 <= i <= |s| - |sub| && s[i..i + |sub|] == sub
  }

  lemma {:induction false} OccursContains(s: string, sub: string, i: int)
    requires OccursAt(s, sub, i)
    ensures Contains(s, sub)
    decreases i
  {
    if i > 0 {
      assert s[1..][i - 1..i - 1 + |sub|] == s[i..i + |sub|];
      OccursContains(s[1..], sub, i - 1);
    } else {
      assert s[..|sub|] == sub;
    }
  }

  lemma {:induction false} ContainsOccurs(s: string, sub: string)
    requires Contains(s, sub)
    ensures exists i :: OccursAt(s, sub, i)
    decreases |s|
  {
    if sub <= s {
      assert OccursAt(s, sub, 0);
    } else {
      ContainsOccurs(s[1..], sub);
      var i :| OccursAt(s[1..], sub, i);
      assert s[i + 1..i + 1 + |sub|] == s[1..][i..i + |sub|];
      assert OccursAt(s, sub, i + 1);
    }
  }

  /** `Contains` agrees with the positional reading of `includes`: some window of `s` equals `sub`. */
  lemma ContainsAt(s: string, sub: string)
    ensures Contains(s, sub) <==> exists i :: OccursAt(s, sub, i)
  {
    if Contains(s, sub) {
      ContainsOccurs(s, sub);
    }
    forall i | OccursAt(s, sub, i)
      ensures Contains(s, sub)
    {
      OccursContains(s, sub, i);
    }
  }

  /** The pieces between the occurrences of `sep`, as JavaScript's `s.split(sep)` gives them; one more piece than separators. */
  function Split(s: string, sep: char): (r: seq<string>)
    ensures r != []
    decreases |s|
  {
    if s == [] then [""]
    else
      var rest := Split(s[1..], sep);
      if s[0] == sep then [""] + rest
      else [[s[0]] + rest[0]] + rest[1..]
  }

  /** `split` gives one more piece than there are separators, and no piece holds one. */
  lemma {:induction false} SplitCount(s: string, sep: char)
    ensures |Split(s, sep)| == multiset(s)[sep] + 1
    ensures forall k :: 0 <= k < |Split(s, sep)| ==> sep !in Split(s, sep)[k]
    decreases |s|
  {
    if s != [] {
      SplitCount(s[1..], sep);
      assert s == [s[0]] + s[1..];
    }
  }

  /** The cells with `sep` between them, as the row's template literal writes them. */
  function Join(cells: seq<string>, sep: char): string
    decreases |cells|
  {
    if cells == [] then ""
    else if |cells| == 1 then cells[0]
    else cells[0] + [sep] + Join(cells[1..], sep)
  }

  /** Number of `c` characters inside all the cells together. */
  function CharTotal(cells: seq<string>, c: char): nat
    decreases |cells|
  {
    if cells == [] then 0 else multiset(cells[0])[c] + CharTotal(cells[1..], c)
  }

  lemma {:induction false} SplitNoSep(a: string, sep: char)
    requires sep !in a
    ensures Split(a, sep) == [a]
    decreases |a|
  {
    if a != [] {
      SplitNoSep(a[1..], sep);
      assert a == [a[0]] + a[1..];
    }
  }

  lemma {:induction false} SplitAfterPiece(a: string, sep: char, b: string)
    requires sep !in a
    ensures Split(a + [sep] + b, sep) == [a] + Split(b, sep)
    decreases |a|
  {
    var s := a + [sep] + b;
    if a == [] {
      assert s[1..] == b;
    } else {
      assert s[1..] == a[1..] + [sep] + b;
      SplitAfterPiece(a[1..], sep, b);
      assert [a[0]] + a[1..] == a;
    }
  }

  /** Splitting a join gives the cells back exactly when no cell holds the separator. */
  lemma {:induction false} SplitJoin(cells: seq<string>, sep: char)
    requires cells != []
    requires forall k :: 0 <= k < |cells| ==> sep !in cells[k]
    ensures Split(Join(cells, sep), sep) == cells
    decreases |cells|
  {
    if |cells| == 1 {
      SplitNoSep(cells[0], sep);
    } else {
      SplitJoin(cells[1..], sep);
      SplitAfterPiece(cells[0], sep, Join(cells[1..], sep));
      assert [cells[0]] + cells[1..] == cells;
    }
  }

  /** A join of n cells holds n - 1 separators plus those inside the cells. */
  lemma {:induction false} JoinSepCount(cells: seq<string>, sep: char)
    requires cells != []
    ensures multiset(Join(cells, sep))[sep] == |cells| - 1 + CharTotal(cells, sep)
    decreases |cells|
  {
    if |cells| == 1 {
      assert cells[1..] == [];
    } else {
      JoinSepCount(cells[1..], sep);
    }
  }

  lemma {:induction false} CharTotalZero(cells: seq<string>, sep: char)
    ensures CharTotal(cells, sep) == 0 <==> forall k :: 0 <= k < |cells| ==> sep !in cells[k]
    decreases |cells|
  {
    if cells != [] {
      CharTotalZero(cells[1..], sep);
      assert forall k :: 1 <= k < |cells| ==> cells[k] == cells[1..][k - 1];
    }
  }

  /** A character other than the separator occurs in a join exactly as often as in the cells together. */
  lemma {:induction false} JoinCharCount(cells: seq<string>, sep: char, c: char)
    requires c != sep
    ensures multiset(Join(cells, sep))[c] == CharTotal(cells, c)
    decreases |cells|
  {
    if |cells| == 1 {
      assert cells[1..] == [];
    } else if |cells| > 1 {
      JoinCharCount(cells[1..], sep, c);
    }
  }

  /** A character that is neither the separator nor in any cell is not in the join. */
  lemma {:induction false} JoinAvoids(cells: seq<string>, sep: char, c: char)
    requires c != sep
    requires forall k :: 0 <= k < |cells| ==> c !in cells[k]
    ensures c !in Join(cells, sep)
    decreases |cells|
  {
    if |cells| > 1 {
      JoinAvoids(cells[1..], sep, c);
    }
  }

  /** Lines each ended by a line break, one after another. */
  function JoinLines(lines: seq<string>): string
    decreases |lines|
  {
    if lines == [] then "" else lines[0] + "\n" + JoinLines(lines[1..])
  }

  /** Adding a last line appends exactly that line and its break. */
  lemma {:induction false} JoinLinesSnoc(lines: seq<string>, last: string)
    ensures JoinLines(lines + [last]) == JoinLines(lines) + last + "\n"
    decreases |lines|
  {
    if lines == [] {
      assert [last][1..] == [];
    } else {
      assert (lines + [last])[1..] == lines[1..] + [last];
      JoinLinesSnoc(lines[1..], last);
    }
  }

  /** Lines without breaks read back one by one, followed by the empty piece after the last break. */
  lemma {:induction false} SplitJoinLines(lines: seq<string>)
    requires forall k :: 0 <= k < |lines| ==> '\n' !in lines[k]
    ensures Split(JoinLines(lines), '\n') == lines + [""]
    decreases |lines|
  {
    if lines != [] {
      var rest := lines[1..];
      assert forall k :: 0 <= k < |rest| ==> rest[k] == lines[k + 1];
      SplitJoinLines(rest);
      SplitAfterPiece(lines[0], '\n', JoinLines(rest));
      assert JoinLines(lines) == lines[0] + ['\n'] + JoinLines(rest);
      assert lines == [lines[0]] + rest;
    }
  }
}
