/** String and list helpers with the semantics of the JavaScript built-ins the application relies on:
    `\s`, `trim`, `toLowerCase`, `includes`, `indexOf`, `split`, `join` and `filter`. */
module Text {

  datatype Option<T> = None | Some(value: T)

  /** JavaScript's white-space class `\s`: WhiteSpace and LineTerminator code points,
      which are also the characters `String.prototype.trim` removes. */
  predicate IsSpace(c: char) {
    c == ' ' || c == '\t' || c == '\n' || c == '\r' || c == '\U{000B}' || c == '\U{000C}'
    || c == '\U{00A0}' || c == '\U{1680}' || ('\U{2000}' <= c <= '\U{200A}')
    || c == '\U{2028}' || c == '\U{2029}' || c == '\U{202F}' || c == '\U{205F}'
    || c == '\U{3000}' || c == '\U{FEFF}'
  }

  /** The characters `.` refuses to match in a regular expression without the `s` flag. */
  predicate IsLineTerminator(c: char) {
    c == '\n' || c == '\r' || c == '\U{2028}' || c == '\U{2029}'
  }

  /** `\w`: ASCII letters, digits and the underscore. */
  predicate IsWordChar(c: char) {
    ('a' <= c <= 'z') || ('A' <= c <= 'Z') || ('0' <= c <= '9') || c == '_'
  }

  function LowerChar(c: char): (r: char)
    ensures 'A' <= c <= 'Z' ==> 'a' <= r <= 'z'
    ensures !('A' <= c <= 'Z') ==> r == c
  {
    if 'A' <= c <= 'Z' then (c as int + 32) as char else c
  }

  /** `toLowerCase` on the ASCII letters. */
  function ToLower(s: string): (r: string)
    ensures |r| == |s|
    ensures forall i :: 0 <= i < |s| ==> r[i] == LowerChar(s[i])
  {
    seq(|s|, i requires 0 <= i < |s| => LowerChar(s[i]))
  }

  predicate OccursAt(s: string, t: string, i: nat) {
    i + |t| <= |s| && s[i..i + |t|] == t
  }

  /** `s.indexOf(t, from)`: the least position at or after `from` where `t` occurs. */
  function IndexOf(s: string, t: string, from: nat): (r: Option<nat>)
    ensures r.Some? ==> from <= r.value && OccursAt(s, t, r.value)
    decreases |s| - from
  {
    if from + |t| > |s| then None
    else if s[from..from + |t|] == t then Some(from)
    else IndexOf(s, t, from + 1)
  }

  /** `indexOf` finds the first occurrence: none lies before the position it returns, and
      none at all when it returns nothing. */
  lemma {:induction false} IndexOfLeast(s: string, t: string, from: nat)
    ensures IndexOf(s, t, from).Some? ==> forall j :: from <= j < IndexOf(s, t, from).value ==> !OccursAt(s, t, j)
    ensures IndexOf(s, t, from).None? ==> forall j: nat :: from <= j ==> !OccursAt(s, t, j)
    decreases |s| - from
  {
    if from + |t| <= |s| && s[from..from + |t|] != t {
      IndexOfLeast(s, t, from + 1);
    }
  }

  /** An occurrence with none before it, from `from` on, is the one `indexOf` finds. */
  lemma {:induction false} IndexOfIs(s: string, t: string, from: nat, c: nat)
    requires from <= c && OccursAt(s, t, c)
    requires forall j :: from <= j < c ==> !OccursAt(s, t, j)
    ensures IndexOf(s, t, from) == Some(c)
    decreases c - from
  {
    if from < c {
      assert !OccursAt(s, t, from);
      IndexOfIs(s, t, from + 1, c);
    }
  }

  /** `s.includes(t)`. */
  predicate Contains(s: string, t: string) {
    IndexOf(s, t, 0).Some?
  }

  lemma {:induction false} ContainsIff(s: string, t: string)
    ensures Contains(s, t) <==> exists i: nat :: OccursAt(s, t, i)
  {
    IndexOfLeast(s, t, 0);
  }

  lemma {:induction false} ContainsMiddle(x: string, t: string, y: string)
    ensures Contains(x + t + y, t)
  {
    var s := x + t + y;
    assert s[|x|..|x| + |t|] == t;
    assert OccursAt(s, t, |x|);
    ContainsIff(s, t);
  }

  /** Text around a string keeps what it contains. */
  lemma {:induction false} ContainsGrow(s: string, t: string, x: string, y: string)
    requires Contains(s, t)
    ensures Contains(x + s + y, t)
  {
    var i := IndexOf(s, t, 0).value;
    var u := x + s + y;
    assert u[|x| + i..|x| + i + |t|] == s[i..i + |t|];
    assert OccursAt(u, t, |x| + i);
    ContainsIff(u, t);
  }

  /** A prefix of a string that does not contain `t` does not contain it either. */
  lemma {:induction false} PrefixKeepsAbsence(s: string, t: string, k: nat)
    requires k <= |s|
    requires !Contains(s, t)
    ensures !Contains(s[..k], t)
  {
    IndexOfLeast(s, t, 0);
    if Contains(s[..k], t) {
      var i := IndexOf(s[..k], t, 0).value;
      assert s[..k][i..i + |t|] == s[i..i + |t|];
      assert OccursAt(s, t, i);
      assert false;
    }
  }

  predicate StartsWith(s: string, t: string) {
    |t| <= |s| && s[..|t|] == t
  }

  /** `s.split(sep)` for a non-empty separator string. */
  function Split(s: string, sep: string): (parts: seq<string>)
    requires sep != []
    ensures |parts| >= 1
    decreases |s|
  {
    match IndexOf(s, sep, 0)
    case None => [s]
    case Some(i) => [s[..i]] + Split(s[i + |sep|..], sep)
  }

  /** One step of `Split`, stated outright. */
  lemma {:induction false} SplitUnfold(s: string, sep: string)
    requires sep != []
    ensures IndexOf(s, sep, 0).None? ==> Split(s, sep) == [s]
    ensures IndexOf(s, sep, 0).Some? ==>
              Split(s, sep) == [s[..IndexOf(s, sep, 0).value]] + Split(s[IndexOf(s, sep, 0).value + |sep|..], sep)
  {
  }

  lemma {:induction false} JoinFirstTwo(ps: seq<string>, sep: string)
    requires |ps| >= 2
    ensures Join(ps[..2], sep) == ps[0] + sep + ps[1]
  {
    assert ps[..2][1..] == [ps[1]];
  }

  /** No part of a split holds the separator. */
  lemma {:induction false} SplitPartsFree(s: string, sep: string)
    requires sep != []
    ensures forall i :: 0 <= i < |Split(s, sep)| ==> !Contains(Split(s, sep)[i], sep)
    decreases |s|
  {
    SplitUnfold(s, sep);
    var r := IndexOf(s, sep, 0);
    if r.Some? {
      var rest := s[r.value + |sep|..];
      FirstPartFree(s, sep, r.value);
      SplitPartsFree(rest, sep);
      ConsPartsFree(s[..r.value], Split(rest, sep), sep);
    }
  }

  lemma {:induction false} ConsPartsFree(head: string, tail: seq<string>, sep: string)
    requires !Contains(head, sep)
    requires forall i :: 0 <= i < |tail| ==> !Contains(tail[i], sep)
    ensures forall i :: 0 <= i < |[head] + tail| ==> !Contains(([head] + tail)[i], sep)
  {
    forall i | 1 <= i < |[head] + tail| ensures !Contains(([head] + tail)[i], sep) {
      assert ([head] + tail)[i] == tail[i - 1];
    }
  }

  /** The text before the first occurrence does not hold one. */
  lemma {:induction false} FirstPartFree(s: string, sep: string, c: nat)
    requires sep != [] && IndexOf(s, sep, 0) == Some(c)
    ensures !Contains(s[..c], sep)
  {
    IndexOfLeast(s, sep, 0);
    if Contains(s[..c], sep) {
      var i := IndexOf(s[..c], sep, 0).value;
      assert i < c && s[..c][i..i + |sep|] == s[i..i + |sep|];
      assert OccursAt(s, sep, i);
    }
  }

  /** A text that splits into more than two parts is its first part, the separator, its
      second part, the separator, and the join of the others. */
  lemma {:induction false} SplitFirstTwo(s: string, sep: string)
    requires sep != [] && |Split(s, sep)| > 2
    ensures s == Split(s, sep)[0] + sep + Split(s, sep)[1] + sep + Join(Split(s, sep)[2..], sep)
  {
    var ps := Split(s, sep);
    JoinSplit(s, sep);
    assert ps == ps[..2] + ps[2..];
    JoinAppend(ps[..2], ps[2..], sep);
    JoinFirstTwo(ps, sep);
  }

  /** `parts.join(sep)`. */
  function Join(parts: seq<string>, sep: string): string
    decreases |parts|
  {
    if |parts| == 0 then ""
    else if |parts| == 1 then parts[0]
    else parts[0] + sep + Join(parts[1..], sep)
  }

  lemma {:induction false} JoinSplit(s: string, sep: string)
    requires sep != []
    ensures Join(Split(s, sep), sep) == s
    decreases |s|
  {
    SplitUnfold(s, sep);
    var r := IndexOf(s, sep, 0);
    if r.Some? {
      var i := r.value;
      var rest := s[i + |sep|..];
      JoinSplit(rest, sep);
      JoinCons(s[..i], Split(rest, sep), sep);
      CutAround(s, sep, i);
    }
  }

  lemma {:induction false} JoinCons(head: string, tail: seq<string>, sep: string)
    requires tail != []
    ensures Join([head] + tail, sep) == head + sep + Join(tail, sep)
  {
    assert ([head] + tail)[1..] == tail;
  }

  lemma {:induction false} CutAround(s: string, sep: string, i: nat)
    requires OccursAt(s, sep, i)
    ensures s == s[..i] + sep + s[i + |sep|..]
  {
    assert s == s[..i] + s[i..i + |sep|] + s[i + |sep|..];
  }

  /** Joining two non-empty groups of parts puts one separator between their joins. */
  lemma {:induction false} JoinAppend(a: seq<string>, b: seq<string>, sep: string)
    requires a != [] && b != []
    ensures Join(a + b, sep) == Join(a, sep) + sep + Join(b, sep)
    decreases |a|
  {
    if |a| == 1 {
      assert (a + b)[1..] == b;
    } else {
      JoinAppend(a[1..], b, sep);
      assert (a + b)[1..] == a[1..] + b;
    }
  }

  /** Splitting on a one-character separator undoes joining on it, when no part holds it. */
  lemma {:induction false} SplitJoin(parts: seq<string>, sep: string)
    requires |sep| == 1 && parts != []
    requires forall k :: 0 <= k < |parts| ==> sep[0] !in parts[k]
    ensures Split(Join(parts, sep), sep) == parts
    decreases |parts|
  {
    var p := parts[0];
    assert forall j :: 0 <= j < |p| ==> !OccursAt(p, sep, j) by {
      forall j | 0 <= j < |p| ensures !OccursAt(p, sep, j) {
        if j + 1 <= |p| { assert p[j..j + 1][0] == p[j]; }
      }
    }
    if |parts| == 1 {
      assert IndexOf(p, sep, 0).None?;
    } else {
      var rest := Join(parts[1..], sep);
      var s := p + sep + rest;
      assert Join(parts, sep) == s;
      assert s[..|p|] == p;
      forall j | 0 <= j < |p| ensures !OccursAt(s, sep, j) {
        assert s[j] == p[j];
      }
      assert OccursAt(s, sep, |p|);
      IndexOfIs(s, sep, 0, |p|);
      assert s[|p| + 1..] == rest;
      SplitJoin(parts[1..], sep);
      assert Split(s, sep) == [p] + parts[1..];
    }
  }

  /** `s.trimStart()`. */
  function TrimStart(s: string): (r: string)
    ensures |r| <= |s| && r == s[|s| - |r|..]
    ensures r != [] ==> !IsSpace(r[0])
    ensures forall i :: 0 <= i < |s| - |r| ==> IsSpace(s[i])
    decreases |s|
  {
    if s != [] && IsSpace(s[0]) then TrimStart(s[1..]) else s
  }

  /** `s.trimEnd()`. */
  function TrimEnd(s: string): (r: string)
    ensures |r| <= |s| && r == s[..|r|]
    ensures r != [] ==> !IsSpace(r[|r| - 1])
    ensures forall i :: |r| <= i < |s| ==> IsSpace(s[i])
    decreases |s|
  {
    if s != [] && IsSpace(s[|s| - 1]) then TrimEnd(s[..|s| - 1]) else s
  }

  /** `s.trim()`. */
  function Trim(s: string): (r: string)
    ensures |r| <= |s|
    ensures r != [] ==> !IsSpace(r[0]) && !IsSpace(r[|r| - 1])
  {
    TrimEnd(TrimStart(s))
  }

  /** Drops the leading white space of `s`. */
  function DropSpaces(s: string): (r: string)
    ensures |r| <= |s| && r == s[|s| - |r|..]
    ensures r != [] ==> !IsSpace(r[0])
    decreases |s|
  {
    if s != [] && IsSpace(s[0]) then DropSpaces(s[1..]) else s
  }

  /** No white space but plain spaces, and never two in a row. */
  predicate SingleSpaced(s: string) {
    (forall i :: 0 <= i < |s| && IsSpace(s[i]) ==> s[i] == ' ')
    && (forall i :: 0 <= i < |s| - 1 ==> !(s[i] == ' ' && s[i + 1] == ' '))
  }

  /** `s.replace(/\s+/g, ' ')`: every maximal run of white space becomes one space. */
  function CollapseSpaces(s: string): (r: string)
    ensures |r| <= |s|
    ensures r != [] && r[0] == ' ' ==> s != [] && IsSpace(s[0])
    ensures SingleSpaced(r)
    decreases |s|
  {
    if s == [] then []
    else if IsSpace(s[0]) then
      var rest := DropSpaces(s[1..]);
      var tail := CollapseSpaces(rest);
      assert tail != [] ==> tail[0] != ' ';
      [' '] + tail
    else [s[0]] + CollapseSpaces(s[1..])
  }

  lemma {:induction false} SingleSpacedSlice(s: string, i: nat, j: nat)
    requires i <= j <= |s| && SingleSpaced(s)
    ensures SingleSpaced(s[i..j])
  {
    var t := s[i..j];
    forall k | 0 <= k < |t| - 1 ensures !(t[k] == ' ' && t[k + 1] == ' ') {
      assert t[k] == s[i + k] && t[k + 1] == s[i + k + 1];
    }
  }

  /** The longest prefix of `s` without white space. */
  function TakeWord(s: string): (w: string)
    ensures |w| <= |s| && w == s[..|w|]
    ensures forall k :: 0 <= k < |w| ==> !IsSpace(w[k])
    ensures |w| < |s| ==> IsSpace(s[|w|])
    decreases |s|
  {
    if s == [] || IsSpace(s[0]) then [] else [s[0]] + TakeWord(s[1..])
  }

  predicate IsWord(w: string) {
    w != [] && forall k :: 0 <= k < |w| ==> !IsSpace(w[k])
  }

  /** `s.split(/\s+/).filter(w => w.length > 0)`: the maximal runs of non-white-space. */
  function Words(s: string): (ws: seq<string>)
    ensures forall k :: 0 <= k < |ws| ==> IsWord(ws[k])
    decreases |s|
  {
    var t := TrimStart(s);
    if t == [] then []
    else
      var w := TakeWord(t);
      [w] + Words(t[|w|..])
  }

  /** A word followed by white space (or nothing) is the first word. */
  lemma {:induction false} WordsCons(w: string, rest: string)
    requires IsWord(w)
    requires rest == [] || IsSpace(rest[0])
    ensures Words(w + rest) == [w] + Words(rest)
  {
    var s := w + rest;
    assert s[0] == w[0];
    assert TrimStart(s) == s;
    TakeWordOf(w, rest);
    assert s[|w|..] == rest;
  }

  lemma {:induction false} WordsLeadingSpace(rest: string)
    ensures Words(" " + rest) == Words(rest)
  {
    assert (" " + rest)[1..] == rest;
    assert TrimStart(" " + rest) == TrimStart(rest);
  }

  /** A word followed by a space is split off first. */
  lemma {:induction false} WordsSpaceJoin(w: string, rest: string)
    requires IsWord(w)
    ensures Words(w + " " + rest) == [w] + Words(rest)
  {
    assert w + " " + rest == w + (" " + rest);
    WordsCons(w, " " + rest);
    WordsLeadingSpace(rest);
  }

  /** Joining words with single spaces and splitting them again gives the words back. */
  lemma {:induction false} WordsOfJoin(ws: seq<string>)
    requires forall k :: 0 <= k < |ws| ==> IsWord(ws[k])
    ensures Words(Join(ws, " ")) == ws
    decreases |ws|
  {
    if ws == [] {
      assert TrimStart("") == "";
    } else if |ws| == 1 {
      WordsCons(ws[0], "");
      assert ws[0] + "" == ws[0];
      assert TrimStart("") == "";
    } else {
      var tail := ws[1..];
      assert forall k :: 0 <= k < |tail| ==> tail[k] == ws[k + 1];
      WordsOfJoin(tail);
      assert Join(ws, " ") == ws[0] + " " + Join(tail, " ");
      WordsSpaceJoin(ws[0], Join(tail, " "));
      assert [ws[0]] + tail == ws;
    }
  }

  lemma {:induction false} TakeWordOf(w: string, rest: string)
    requires IsWord(w)
    requires rest == [] || IsSpace(rest[0])
    ensures TakeWord(w + rest) == w
  {
    var s := w + rest;
    var t := TakeWord(s);
    assert forall k :: 0 <= k < |w| ==> s[k] == w[k];
    assert forall k :: 0 <= k < |t| ==> t[k] == s[k];
    assert |w| < |s| ==> IsSpace(s[|w|]);
    assert |t| == |w|;
    assert s[..|w|] == w;
  }

  /** Decimal digits of a natural number, as `${n}` prints it. */
  function NatToString(n: nat): (r: string)
    ensures r != []
    ensures forall k :: 0 <= k < |r| ==> '0' <= r[k] <= '9'
    decreases n
  {
    var d := ['0' + ((n % 10) as char)];
    if n < 10 then d else NatToString(n / 10) + d
  }

  /** `s.substring(0, n)`. */
  function Prefix(s: string, n: nat): (r: string)
    ensures |r| == if |s| <= n then |s| else n
    ensures r == s[..|r|]
  {
    if |s| <= n then s else s[..n]
  }

  /** No element occurs twice. */
  predicate Distinct(xs: seq<string>)
    decreases |xs|
  {
    xs == [] || (Distinct(xs[..|xs| - 1]) && xs[|xs| - 1] !in xs[..|xs| - 1])
  }

  lemma {:induction false} DistinctSnoc(xs: seq<string>, x: string)
    requires Distinct(xs) && x !in xs
    ensures Distinct(xs + [x])
  {
    assert (xs + [x])[..|xs|] == xs;
  }

  /** Distinct elements differ pairwise. */
  lemma {:induction false} DistinctAt(xs: seq<string>, i: nat, j: nat)
    requires Distinct(xs) && i < j < |xs|
    ensures xs[i] != xs[j]
    decreases |xs|
  {
    var n := |xs| - 1;
    if j < n {
      DistinctAt(xs[..n], i, j);
    } else {
      assert xs[..n][i] == xs[i];
    }
  }

  /** A sequence without repetitions has as many elements as the set of them. */
  lemma {:induction false} DistinctCard(xs: seq<string>)
    requires Distinct(xs)
    ensures |set x | x in xs| == |xs|
    decreases |xs|
  {
    if xs != [] {
      var n := |xs| - 1;
      DistinctCard(xs[..n]);
      assert (set x | x in xs) == (set x | x in xs[..n]) + {xs[n]};
    }
  }

  /** `a` is `b` with some elements left out and the rest in their order. */
  predicate IsSubsequence<T(==)>(a: seq<T>, b: seq<T>)
    decreases |b|
  {
    if a == [] then true
    else if b == [] then false
    else if a[|a| - 1] == b[|b| - 1] then IsSubsequence(a[..|a| - 1], b[..|b| - 1])
    else IsSubsequence(a, b[..|b| - 1])
  }

  /** Dropping the last element of a subsequence leaves a subsequence. */
  lemma {:induction false} SubsequenceInit<T>(a: seq<T>, b: seq<T>)
    requires a != [] && IsSubsequence(a, b)
    ensures IsSubsequence(a[..|a| - 1], b)
    decreases |b|, 0
  {
    var n := |b| - 1;
    if a[|a| - 1] == b[n] {
      SubsequenceExtend(a[..|a| - 1], b[..n], b[n]);
    } else {
      SubsequenceInit(a, b[..n]);
      SubsequenceExtend(a[..|a| - 1], b[..n], b[n]);
    }
  }

  /** A subsequence stays one when the longer sequence grows at its end. */
  lemma {:induction false} SubsequenceExtend<T>(a: seq<T>, b: seq<T>, x: T)
    requires IsSubsequence(a, b)
    ensures IsSubsequence(a, b + [x])
    decreases |b|, 1
  {
    if a != [] {
      assert (b + [x])[..|b|] == b;
      if a[|a| - 1] == x {
        SubsequenceInit(a, b);
      }
    }
  }

  lemma {:induction false} SubsequenceTransitive<T>(a: seq<T>, b: seq<T>, c: seq<T>)
    requires IsSubsequence(a, b) && IsSubsequence(b, c)
    ensures IsSubsequence(a, c)
    decreases |c|
  {
    if a != [] {
      var n := |c| - 1;
      var b' := b[..|b| - 1];
      if b[|b| - 1] == c[n] {
        if a[|a| - 1] == b[|b| - 1] {
          SubsequenceTransitive(a[..|a| - 1], b', c[..n]);
        } else {
          SubsequenceTransitive(a, b', c[..n]);
          SubsequenceExtend(a, c[..n], c[n]);
          assert (c[..n] + [c[n]]) == c;
        }
      } else {
        SubsequenceTransitive(a, b, c[..n]);
        SubsequenceExtend(a, c[..n], c[n]);
        assert (c[..n] + [c[n]]) == c;
      }
    }
  }

  /** `xs.filter(keep)`. */
  function Keep<T>(xs: seq<T>, keep: T -> bool): (r: seq<T>)
    ensures |r| <= |xs|
    decreases |xs|
  {
    if xs == [] then []
    else
      var n := |xs| - 1;
      Keep(xs[..n], keep) + (if keep(xs[n]) then [xs[n]] else [])
  }

  /** The filter keeps exactly the qualifying elements, in their order. */
  lemma {:induction false} KeepFacts<T>(xs: seq<T>, keep: T -> bool)
    ensures forall x :: x in Keep(xs, keep) <==> x in xs && keep(x)
    ensures IsSubsequence(Keep(xs, keep), xs)
  {
    KeepMembers(xs, keep);
    KeepIsSubsequence(xs, keep);
  }

  lemma {:induction false} KeepMembers<T>(xs: seq<T>, keep: T -> bool)
    ensures forall x :: x in Keep(xs, keep) <==> x in xs && keep(x)
    decreases |xs|
  {
    if xs != [] {
      var n := |xs| - 1;
      KeepMembers(xs[..n], keep);
      assert xs == xs[..n] + [xs[n]];
    }
  }

  lemma {:induction false} KeepIsSubsequence<T>(xs: seq<T>, keep: T -> bool)
    ensures IsSubsequence(Keep(xs, keep), xs)
    decreases |xs|
  {
    if xs != [] {
      var n := |xs| - 1;
      var init := Keep(xs[..n], keep);
      KeepIsSubsequence(xs[..n], keep);
      assert xs[..n] + [xs[n]] == xs;
      if keep(xs[n]) {
        assert Keep(xs, keep) == init + [xs[n]];
        assert (init + [xs[n]])[..|init|] == init;
      } else {
        assert Keep(xs, keep) == init;
        assert init != [] ==> init[|init| - 1] in init;
        SubsequenceExtend(init, xs[..n], xs[n]);
      }
    }
  }

  /** The filter keeps every copy of a qualifying element and no copy of any other. */
  lemma {:induction false} KeepCounts<T>(xs: seq<T>, keep: T -> bool, x: T)
    ensures multiset(Keep(xs, keep))[x] == if keep(x) then multiset(xs)[x] else 0
    decreases |xs|
  {
    if xs != [] {
      var n := |xs| - 1;
      KeepCounts(xs[..n], keep, x);
      assert xs == xs[..n] + [xs[n]];
    }
  }

  /** Filtering keeps everything when everything qualifies. */
  lemma {:induction false} KeepAll<T>(xs: seq<T>, keep: T -> bool)
    requires forall k :: 0 <= k < |xs| ==> keep(xs[k])
    ensures Keep(xs, keep) == xs
    decreases |xs|
  {
    if xs != [] {
      KeepAll(xs[..|xs| - 1], keep);
      assert xs[..|xs| - 1] + [xs[|xs| - 1]] == xs;
    }
  }

  /** Filtering distributes over concatenation. */
  lemma {:induction false} KeepAppend<T>(a: seq<T>, b: seq<T>, keep: T -> bool)
    ensures Keep(a + b, keep) == Keep(a, keep) + Keep(b, keep)
    decreases |b|
  {
    if b == [] {
      assert a + b == a;
    } else {
      var n := |b| - 1;
      var ab := a + b;
      assert ab[..|ab| - 1] == a + b[..n] && ab[|ab| - 1] == b[n];
      KeepAppend(a, b[..n], keep);
    }
  }
}
