/** The few functions of Go's `strings` package that the chat server's
    dispatcher relies on, with Go's semantics: `HasPrefix`, `Index` (for a
    one-character separator), `SplitN` and `Join`. Strings are sequences of
    characters; the server only ever splits on the single space " ". */
module GoStrings {

  /** strings.HasPrefix: `prefix` is an initial segment of `s`. */
  predicate HasPrefix(s: string, prefix: string) {
    |prefix| <= |s| && s[..|prefix|] == prefix
  }

  /** HasPrefix character by character: `s` agrees with `prefix` on all of
      `prefix`'s positions, and is then `prefix` followed by the rest of `s`. */
  lemma HasPrefixPointwise(s: string, prefix: string)
    ensures HasPrefix(s, prefix) <==>
      |prefix| <= |s| && forall i :: 0 <= i < |prefix| ==> s[i] == prefix[i]
    ensures HasPrefix(s, prefix) ==> s == prefix + s[|prefix|..]
  {
    if |prefix| <= |s| && forall i :: 0 <= i < |prefix| ==> s[i] == prefix[i] {
      assert s[..|prefix|] == prefix;
    }
  }

  /** strings.Index for a separator of one character: the position of the
      first occurrence of `c`, or -1 when there is none. */
  function Index(s: string, c: char): (i: int)
    ensures -1 <= i < |s|
    ensures i == -1 <==> c !in s
    ensures 0 <= i ==> s[i] == c && c !in s[..i]
  {
    if s == [] then -1
    else if s[0] == c then 0
    else
      var j := Index(s[1..], c);
      assert s == [s[0]] + s[1..];
      if j == -1 then -1
      else
        assert s[..j + 1] == [s[0]] + s[1..][..j];
        j + 1
  }

  /** The number of occurrences of `c` in `s`. */
  function Count(s: string, c: char): nat {
    if s == [] then 0 else (if s[0] == c then 1 else 0) + Count(s[1..], c)
  }

  /** The number of characters in all of `elems` together. */
  function TotalLength(elems: seq<string>): nat {
    if elems == [] then 0 else |elems[0]| + TotalLength(elems[1..])
  }

  /** strings.Join: the elements with `sep` between consecutive ones. */
  function Join(elems: seq<string>, sep: string): string {
    if |elems| == 0 then ""
    else if |elems| == 1 then elems[0]
    else elems[0] + sep + Join(elems[1..], sep)
  }

  /** A joined string starts with the first element and is as long as all
      the elements plus one separator per gap between them. */
  lemma {:induction false} JoinShape(elems: seq<string>, sep: string)
    ensures elems != [] ==> HasPrefix(Join(elems, sep), elems[0])
    ensures |Join(elems, sep)| == TotalLength(elems) + (if elems == [] then 0 else (|elems| - 1) * |sep|)
  {
    if |elems| > 1 {
      JoinShape(elems[1..], sep);
      var r := Join(elems, sep);
      assert r == elems[0] + (sep + Join(elems[1..], sep));
      assert r[..|elems[0]|] == elems[0];
    }
  }

  /** strings.SplitN(s, sep, n) for n >= 0 and a one-character separator:
      at most `n` pieces, split at the first n-1 occurrences of `sep`; the
      last piece is the unsplit rest of `s`, separators included. n == 0
      gives no pieces at all (Go returns nil). */
  function SplitN(s: string, sep: char, n: nat): (r: seq<string>)
    ensures n == 0 ==> r == []
    ensures n > 0 ==> 1 <= |r| <= n
    ensures forall k :: 0 <= k < |r| - 1 ==> sep !in r[k]
    decreases n
  {
    if n == 0 then []
    else if n == 1 then [s]
    else
      var m := Index(s, sep);
      if m < 0 then [s]
      else
        var rest := SplitN(s[m + 1..], sep, n - 1);
        assert ([s[..m]] + rest)[1..] == rest;
        [s[..m]] + rest
  }

  /** One step of SplitN: the text before the first separator is the first
      piece, and the rest after it is split into one piece fewer. */
  lemma SplitNStep(s: string, sep: char, n: nat)
    requires n > 1 && sep in s
    ensures var m := Index(s, sep);
      SplitN(s, sep, n) == [s[..m]] + SplitN(s[m + 1..], sep, n - 1)
  {
  }

  /** With no separator left, or a limit of one piece, the whole string is
      the only piece. */
  lemma SplitNWhole(s: string, sep: char, n: nat)
    requires n == 1 || (n > 1 && sep !in s)
    ensures SplitN(s, sep, n) == [s]
  {
  }

  lemma SplitAround(s: string, m: nat)
    requires m < |s|
    ensures s == s[..m] + [s[m]] + s[m + 1..]
  {
  }

  lemma JoinCons(head: string, rest: seq<string>, sep: string)
    requires rest != []
    ensures Join([head] + rest, sep) == head + sep + Join(rest, sep)
  {
    assert ([head] + rest)[1..] == rest;
  }

  lemma JoinThree(a: string, b: string, c: string, sep: string)
    ensures Join([a, b, c], sep) == a + sep + b + sep + c
  {
    JoinCons(b, [c], sep);
    assert [b] + [c] == [b, c] && [a] + [b, c] == [a, b, c];
    JoinCons(a, [b, c], sep);
  }

  /** Nothing is lost by splitting: joining the pieces with the separator
      gives the string back. */
  lemma {:induction false} SplitNJoin(s: string, sep: char, n: nat)
    requires n > 0
    ensures Join(SplitN(s, sep, n), [sep]) == s
    decreases n
  {
    if n > 1 && sep in s {
      var m := Index(s, sep);
      var head, tail := s[..m], s[m + 1..];
      SplitNJoin(tail, sep, n - 1);
      SplitNStep(s, sep, n);
      JoinCons(head, SplitN(tail, sep, n - 1), [sep]);
      SplitAround(s, m);
    }
  }

  /** The last piece holds a separator only when the limit n was reached. */
  lemma {:induction false} SplitNLast(s: string, sep: char, n: nat)
    requires n > 0
    ensures var r := SplitN(s, sep, n); |r| < n ==> sep !in r[|r| - 1]
    decreases n
  {
    if n > 1 && sep in s {
      var tail := s[Index(s, sep) + 1..];
      SplitNLastStep(s, sep, n);
      SplitNLast(tail, sep, n - 1);
      LastFree(SplitN(s, sep, n), SplitN(tail, sep, n - 1), sep, n);
    } else {
      SplitNLastWhole(s, sep, n);
    }
  }

  /** SplitNLast where the whole string is the only piece. */
  lemma SplitNLastWhole(s: string, sep: char, n: nat)
    requires n > 0 && !(n > 1 && sep in s)
    ensures var r := SplitN(s, sep, n); |r| < n ==> sep !in r[|r| - 1]
  {
    SplitNWhole(s, sep, n);
  }

  /** One SplitN step yields one piece and keeps the last piece of the rest. */
  lemma SplitNLastStep(s: string, sep: char, n: nat)
    requires n > 1 && sep in s
    ensures var r, rest := SplitN(s, sep, n), SplitN(s[Index(s, sep) + 1..], sep, n - 1);
      |r| == 1 + |rest| && r[|r| - 1] == rest[|rest| - 1]
  {
    var m := Index(s, sep);
    SplitNStep(s, sep, n);
    LastOfCons(s[..m], SplitN(s[m + 1..], sep, n - 1));
  }

  /** The bookkeeping of SplitNLast's inductive step, on plain sequences. */
  lemma LastFree(r: seq<string>, rest: seq<string>, sep: char, n: nat)
    requires rest != [] && |r| == 1 + |rest| && r[|r| - 1] == rest[|rest| - 1]
    requires |rest| < n - 1 ==> sep !in rest[|rest| - 1]
    ensures |r| < n ==> sep !in r[|r| - 1]
  {
  }

  /** Putting an element in front keeps the last element. */
  lemma LastOfCons<T>(x: T, xs: seq<T>)
    requires xs != []
    ensures |[x] + xs| == 1 + |xs| && ([x] + xs)[|xs|] == xs[|xs| - 1]
  {
  }

  /** Where a separator-free prefix is followed by the separator, Index finds
      exactly that separator. */
  lemma IndexAfterPrefix(a: string, c: char, b: string)
    requires c !in a
    ensures Index(a + [c] + b, c) == |a|
  {
    var s := a + [c] + b;
    assert s[|a|] == c;
    assert s[..|a|] == a;
  }

  /** Splitting a string that starts with a separator-free `head` and a
      separator: `head` is the first piece, the rest is split with one piece
      fewer. */
  lemma SplitNAfterHead(head: string, sep: char, tail: string, n: nat)
    requires n >= 2 && sep !in head
    ensures SplitN(head + [sep] + tail, sep, n) == [head] + SplitN(tail, sep, n - 1)
  {
    var s := head + [sep] + tail;
    IndexAfterPrefix(head, sep, tail);
    assert s[..|head|] == head;
    assert s[|head| + 1..] == tail;
  }

  /** SplitN is determined by the properties its contract states: any list of
      at most n pieces that joins back to `s`, whose pieces before the last hold
      no separator, and whose last piece holds none unless the limit n was
      reached, IS SplitN(s, sep, n). */
  lemma {:induction false} SplitNUnique(s: string, sep: char, n: nat, r: seq<string>)
    requires 1 <= |r| <= n
    requires Join(r, [sep]) == s
    requires forall k :: 0 <= k < |r| - 1 ==> sep !in r[k]
    requires |r| < n ==> sep !in r[|r| - 1]
    ensures SplitN(s, sep, n) == r
    decreases n
  {
    if |r| == 1 {
      SplitNUniqueOne(s, sep, n, r);
    } else {
      var rest := r[1..];
      UniqueRest(s, sep, n, r);
      SplitNUnique(Join(rest, [sep]), sep, n - 1, rest);
      UniqueStep(s, sep, n, r);
    }
  }

  /** SplitNUnique's inductive step: once the rest of the string splits into
      the remaining pieces, the whole string splits into all of them. */
  lemma UniqueStep(s: string, sep: char, n: nat, r: seq<string>)
    requires 2 <= |r| <= n && sep !in r[0]
    requires s == r[0] + [sep] + Join(r[1..], [sep])
    requires SplitN(Join(r[1..], [sep]), sep, n - 1) == r[1..]
    ensures SplitN(s, sep, n) == r
  {
    SplitNAfterHead(r[0], sep, Join(r[1..], [sep]), n);
    assert r == [r[0]] + r[1..];
  }

  /** SplitNUnique for a single piece: it is the whole string. */
  lemma SplitNUniqueOne(s: string, sep: char, n: nat, r: seq<string>)
    requires |r| == 1 <= n && Join(r, [sep]) == s
    requires |r| < n ==> sep !in r[|r| - 1]
    ensures SplitN(s, sep, n) == r
  {
    assert s == r[0];
    SplitNWhole(s, sep, n);
  }

  /** Past the first piece, the remaining pieces meet SplitNUnique's
      requirements for the rest of the string and one piece fewer. */
  lemma UniqueRest(s: string, sep: char, n: nat, r: seq<string>)
    requires 2 <= |r| <= n
    requires Join(r, [sep]) == s
    requires forall k :: 0 <= k < |r| - 1 ==> sep !in r[k]
    requires |r| < n ==> sep !in r[|r| - 1]
    ensures var rest := r[1..];
      r == [r[0]] + rest && sep !in r[0] &&
      s == r[0] + [sep] + Join(rest, [sep]) &&
      (forall k :: 0 <= k < |rest| - 1 ==> sep !in rest[k]) &&
      (|rest| < n - 1 ==> sep !in rest[|rest| - 1])
  {
    var rest := r[1..];
    assert r == [r[0]] + rest;
    JoinCons(r[0], rest, [sep]);
    forall k | 0 <= k < |rest| - 1 ensures sep !in rest[k] {
      assert rest[k] == r[k + 1];
    }
    assert rest[|rest| - 1] == r[|r| - 1];
  }

  lemma {:induction false} CountAppend(a: string, b: string, c: char)
    ensures Count(a + b, c) == Count(a, c) + Count(b, c)
  {
    if a != [] {
      assert (a + b)[1..] == a[1..] + b;
      CountAppend(a[1..], b, c);
    } else {
      assert a + b == b;
    }
  }

  lemma {:induction false} CountAbsent(s: string, c: char)
    requires c !in s
    ensures Count(s, c) == 0
  {
    if s != [] {
      assert s == [s[0]] + s[1..];
      CountAbsent(s[1..], c);
    }
  }

  /** The first separator is counted once; the rest are after it. */
  lemma CountAtFirst(s: string, sep: char)
    requires sep in s
    ensures Count(s, sep) == 1 + Count(s[Index(s, sep) + 1..], sep)
  {
    var m := Index(s, sep);
    var head, tail := s[..m], s[m + 1..];
    SplitAround(s, m);
    CountAppend(head + [sep], tail, sep);
    CountAppend(head, [sep], sep);
    CountAbsent(head, sep);
    assert Count([sep], sep) == 1;
  }

  /** One SplitN step consumes the first separator and yields one piece. */
  lemma SplitNCountStep(s: string, sep: char, n: nat)
    requires n > 1 && sep in s
    ensures var tail := s[Index(s, sep) + 1..];
      |SplitN(s, sep, n)| == 1 + |SplitN(tail, sep, n - 1)| &&
      Count(s, sep) == 1 + Count(tail, sep)
  {
    CountAtFirst(s, sep);
    SplitNStep(s, sep, n);
  }

  /** The number of pieces: one more than the number of separators, capped at
      n. In particular SplitN(s, " ", 3) has fewer than 3 pieces exactly when
      `s` holds fewer than two spaces. */
  lemma {:induction false} SplitNLength(s: string, sep: char, n: nat)
    requires n >= 1
    ensures |SplitN(s, sep, n)| == if Count(s, sep) + 1 < n then Count(s, sep) + 1 else n
    decreases n
  {
    if !(n > 1 && sep in s) {
      SplitNLengthWhole(s, sep, n);
    } else {
      var tail := s[Index(s, sep) + 1..];
      SplitNCountStep(s, sep, n);
      SplitNLength(tail, sep, n - 1);
      var pieces, rests := |SplitN(s, sep, n)|, |SplitN(tail, sep, n - 1)|;
      var count, after := Count(s, sep), Count(tail, sep);
      assert pieces == 1 + rests && count == 1 + after;
    }
  }

  /** SplitNLength where the whole string is the only piece. */
  lemma SplitNLengthWhole(s: string, sep: char, n: nat)
    requires n >= 1 && !(n > 1 && sep in s)
    ensures |SplitN(s, sep, n)| == if Count(s, sep) + 1 < n then Count(s, sep) + 1 else n
  {
    SplitNWhole(s, sep, n);
    if sep !in s {
      CountAbsent(s, sep);
    }
  }

  /** Join and SplitN are inverse: a non-empty list of pieces none of which
      holds the separator is recovered by splitting the joined string into
      as many pieces. */
  lemma JoinThenSplit(elems: seq<string>, sep: char)
    requires elems != []
    requires forall k :: 0 <= k < |elems| ==> sep !in elems[k]
    ensures SplitN(Join(elems, [sep]), sep, |elems|) == elems
  {
    SplitNUnique(Join(elems, [sep]), sep, |elems|, elems);
  }
}
