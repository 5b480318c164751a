/** Path joining as done by `Regenerator::makePath`: PHP's `ltrim`, `rtrim`
    and `trim` with a one-character list, PHP's `empty()` on strings, and
    `implode` with the directory separator. */
module Paths {

  /** `DIRECTORY_SEPARATOR` on the POSIX hosts the script is run on. */
  const Sep: char := '/'

  /** PHP's `empty()` on a string: true exactly for "" and "0". */
  predicate IsEmpty(s: string) {
    |s| == 0 || (|s| == 1 && s[0] == '0')
  }

  /** True when `s` consists of separators only (including ""). */
  predicate AllSep(s: string) {
    forall i :: 0 <= i < |s| ==> s[i] == Sep
  }

  /** `n` copies of `c`. */
  function Repeat(c: char, n: nat): (r: string)
    ensures |r| == n
    ensures forall i :: 0 <= i < n ==> r[i] == c
  {
    if n == 0 then [] else [c] + Repeat(c, n - 1)
  }

  lemma {:induction false} RepeatSnoc(c: char, n: nat)
    ensures Repeat(c, n + 1) == Repeat(c, n) + [c]
  {
    if n > 0 {
      RepeatSnoc(c, n - 1);
    }
  }

  // ---------------------------------------------------------------------
  // ltrim / rtrim / trim with a single-character list
  // ---------------------------------------------------------------------

  /** PHP `ltrim($s, c)`: strips every leading `c`; what remains is a
      suffix of `s`. */
  function TrimLeft(s: string, c: char): (r: string)
    ensures |r| <= |s|
    ensures r == [] || r[0] != c
  {
    if |s| > 0 && s[0] == c then TrimLeft(s[1..], c) else s
  }

  /** PHP `rtrim($s, c)`: strips every trailing `c`; what remains is a
      prefix of `s`. */
  function TrimRight(s: string, c: char): (r: string)
    ensures |r| <= |s|
    ensures r == [] || r[|r| - 1] != c
  {
    if |s| > 0 && s[|s| - 1] == c then TrimRight(s[..|s| - 1], c) else s
  }

  /** PHP `trim($s, c)`: strips `c` from both ends. */
  function Trim(s: string, c: char): (r: string)
    ensures |r| <= |s|
    ensures r == [] || (r[0] != c && r[|r| - 1] != c)
  {
    var t := TrimRight(s, c);
    TrimLeftShape(t, c);
    TrimLeft(t, c)
  }

  /** Everything `ltrim` removed is `c`. */
  lemma {:induction false} TrimLeftShape(s: string, c: char)
    ensures s == Repeat(c, |s| - |TrimLeft(s, c)|) + TrimLeft(s, c)
  {
    if |s| > 0 && s[0] == c {
      TrimLeftShape(s[1..], c);
      assert s == [c] + s[1..];
    }
  }

  /** Everything `rtrim` removed is `c`. */
  lemma {:induction false} TrimRightShape(s: string, c: char)
    ensures s == TrimRight(s, c) + Repeat(c, |s| - |TrimRight(s, c)|)
  {
    if |s| > 0 && s[|s| - 1] == c {
      var r := TrimRight(s[..|s| - 1], c);
      TrimRightShape(s[..|s| - 1], c);
      RepeatSnoc(c, |s| - 1 - |r|);
      assert s == s[..|s| - 1] + [c];
    }
  }

  /** What `trim` removed: `k` copies of `c` in front and the rest of the
      removed characters, all `c`, behind. */
  lemma TrimShape(s: string, c: char) returns (k: nat)
    ensures k <= |s| - |Trim(s, c)|
    ensures s == Repeat(c, k) + Trim(s, c) + Repeat(c, |s| - |Trim(s, c)| - k)
  {
    var t := TrimRight(s, c);
    var r := TrimLeft(t, c);
    TrimRightShape(s, c);
    TrimLeftShape(t, c);
    k := |t| - |r|;
  }

  /** `ltrim` removes the longest run of leading `c` and nothing more:
      any split of `s` into `c`s and a rest not starting with `c` is the
      one it finds. */
  lemma {:induction false} TrimLeftUnique(s: string, c: char, k: nat, t: string)
    requires s == Repeat(c, k) + t
    requires t == [] || t[0] != c
    ensures TrimLeft(s, c) == t
  {
    if k > 0 {
      assert s[0] == c;
      assert s[1..] == Repeat(c, k - 1) + t;
      TrimLeftUnique(s[1..], c, k - 1, t);
    }
  }

  /** `rtrim` removes the longest run of trailing `c` and nothing more. */
  lemma {:induction false} TrimRightUnique(s: string, c: char, k: nat, t: string)
    requires s == t + Repeat(c, k)
    requires t == [] || t[|t| - 1] != c
    ensures TrimRight(s, c) == t
  {
    if k > 0 {
      RepeatSnoc(c, k - 1);
      assert s[|s| - 1] == c;
      assert s[..|s| - 1] == t + Repeat(c, k - 1);
      TrimRightUnique(s[..|s| - 1], c, k - 1, t);
    }
  }

  /** `trim` keeps exactly the middle of `s` between its leading and trailing
      runs of `c`. */
  lemma TrimUnique(s: string, c: char, k: nat, t: string, m: nat)
    requires s == Repeat(c, k) + t + Repeat(c, m)
    requires t == [] || (t[0] != c && t[|t| - 1] != c)
    ensures Trim(s, c) == t
  {
    if t == [] {
      assert s == [] + Repeat(c, k + m) by {
        forall i | 0 <= i < |s| ensures s[i] == Repeat(c, k + m)[i] {
          if i < k {
            assert s[i] == Repeat(c, k)[i];
          } else {
            assert s[i] == Repeat(c, m)[i - k];
          }
        }
      }
      TrimRightUnique(s, c, k + m, []);
      TrimLeftUnique([], c, 0, []);
    } else {
      TrimRightUnique(s, c, m, Repeat(c, k) + t);
      TrimLeftUnique(Repeat(c, k) + t, c, k, t);
    }
  }

  /** Trimming only removes characters: whatever remains was in `s`. */
  lemma TrimKeepsChars(s: string, c: char, x: char)
    ensures x in TrimRight(s, c) ==> x in s
    ensures x in Trim(s, c) ==> x in s
  {
    var k := TrimShape(s, c);
    TrimRightShape(s, c);
  }

  /** Trimming a string that has no separator at either end changes nothing. */
  lemma TrimClean(s: string, c: char)
    requires s == [] || (s[0] != c && s[|s| - 1] != c)
    ensures Trim(s, c) == s && TrimRight(s, c) == s
  {
    TrimUnique(s, c, 0, s, 0);
    TrimRightUnique(s, c, 0, s);
  }

  // ---------------------------------------------------------------------
  // implode and its inverse
  // ---------------------------------------------------------------------

  /** PHP `implode(sep, segs)`: exactly one `sep` between consecutive
      segments, none before the first or after the last. */
  function Join(segs: seq<string>, sep: char): string
  {
    if |segs| == 0 then ""
    else if |segs| == 1 then segs[0]
    else segs[0] + [sep] + Join(segs[1..], sep)
  }

  /** The summed lengths of the segments. */
  function TotalLength(segs: seq<string>): nat {
    if |segs| == 0 then 0 else |segs[0]| + TotalLength(segs[1..])
  }

  /** The join is as long as the segments plus one separator between each
      consecutive pair. */
  lemma {:induction false} JoinLength(segs: seq<string>, sep: char)
    requires |segs| > 0
    ensures |Join(segs, sep)| == TotalLength(segs) + |segs| - 1
  {
    if |segs| > 1 {
      JoinLength(segs[1..], sep);
    }
  }

  lemma JoinCons(x: string, segs: seq<string>, sep: char)
    requires |segs| > 0
    ensures Join([x] + segs, sep) == x + [sep] + Join(segs, sep)
  {
    assert ([x] + segs)[1..] == segs;
  }

  /** PHP `explode(sep, s)`: the pieces between the separators. */
  function Split(s: string, sep: char): (r: seq<string>)
    ensures |r| >= 1
  {
    if |s| == 0 then [""]
    else
      var rest := Split(s[1..], sep);
      if s[0] == sep then [""] + rest
      else [[s[0]] + rest[0]] + rest[1..]
  }

  lemma {:induction false} SplitNoSep(x: string, sep: char)
    requires sep !in x
    ensures Split(x, sep) == [x]
  {
    if |x| > 0 {
      SplitNoSep(x[1..], sep);
      assert [x[0]] + x[1..] == x;
    }
  }

  lemma {:induction false} SplitCons(x: string, sep: char, y: string)
    requires sep !in x
    ensures Split(x + [sep] + y, sep) == [x] + Split(y, sep)
  {
    var s := x + [sep] + y;
    if |x| == 0 {
      assert s[1..] == y;
    } else {
      assert s[1..] == x[1..] + [sep] + y;
      SplitCons(x[1..], sep, y);
      assert [x[0]] + x[1..] == x;
    }
  }

  /** Splitting a join gives the segments back, when no segment holds the
      separator. */
  lemma {:induction false} SplitJoin(segs: seq<string>, sep: char)
    requires |segs| > 0
    requires forall i :: 0 <= i < |segs| ==> sep !in segs[i]
    ensures Split(Join(segs, sep), sep) == segs
  {
    if |segs| == 1 {
      SplitNoSep(segs[0], sep);
    } else {
      SplitJoin(segs[1..], sep);
      SplitCons(segs[0], sep, Join(segs[1..], sep));
      assert segs == [segs[0]] + segs[1..];
    }
  }

  /** Joining a split gives the string back, for every string. */
  lemma {:induction false} JoinSplit(s: string, sep: char)
    ensures Join(Split(s, sep), sep) == s
  {
    if |s| > 0 {
      var rest := Split(s[1..], sep);
      JoinSplit(s[1..], sep);
      if s[0] == sep {
        assert Split(s, sep)[1..] == rest;
        assert s == [s[0]] + s[1..];
      } else {
        var r := Split(s, sep);
        assert r[1..] == rest[1..];
        if |rest| == 1 {
          assert s == [s[0]] + rest[0];
        } else {
          assert rest == [rest[0]] + rest[1..];
          assert s == [s[0]] + s[1..];
        }
      }
    }
  }

  // ---------------------------------------------------------------------
  // makePath
  // ---------------------------------------------------------------------

  /** The arguments that survive the `empty($p)` test, in order. */
  function Kept(parts: seq<string>): (r: seq<string>)
    ensures |r| <= |parts|
    ensures forall i :: 0 <= i < |r| ==> !IsEmpty(r[i])
  {
    if |parts| == 0 then []
    else if IsEmpty(parts[0]) then Kept(parts[1..])
    else [parts[0]] + Kept(parts[1..])
  }

  /** An argument is kept exactly when it occurs and is not `empty()`. */
  lemma {:induction false} KeptMembers(parts: seq<string>, p: string)
    ensures p in Kept(parts) <==> p in parts && !IsEmpty(p)
  {
    if |parts| > 0 {
      KeptMembers(parts[1..], p);
      assert parts == [parts[0]] + parts[1..];
    }
  }

  /** How many arguments PHP's `empty()` rejects. */
  function CountEmpty(parts: seq<string>): nat {
    if |parts| == 0 then 0
    else (if IsEmpty(parts[0]) then 1 else 0) + CountEmpty(parts[1..])
  }

  lemma {:induction false} KeptLength(parts: seq<string>)
    ensures |Kept(parts)| == |parts| - CountEmpty(parts)
  {
    if |parts| > 0 {
      KeptLength(parts[1..]);
    }
  }

  /** `trim` applied to every segment. */
  function TrimEach(segs: seq<string>): (r: seq<string>)
    ensures |r| == |segs|
    ensures forall i :: 0 <= i < |segs| ==> r[i] == Trim(segs[i], Sep)
  {
    if |segs| == 0 then [] else [Trim(segs[0], Sep)] + TrimEach(segs[1..])
  }

  /** The segments `makePath` joins, stated without the loop: the first
      kept argument right-trimmed, every later one trimmed at both ends. */
  function Normalize(kept: seq<string>): seq<string> {
    if |kept| == 0 then [] else [TrimRight(kept[0], Sep)] + TrimEach(kept[1..])
  }

  /** One pass of the `foreach` in `makePath`: `acc` is `$processed` so far. */
  function Process(acc: seq<string>, parts: seq<string>): seq<string>
    decreases |parts|
  {
    if |parts| == 0 then acc
    else if IsEmpty(parts[0]) then Process(acc, parts[1..])
    else if |acc| == 0 then Process(acc + [TrimRight(parts[0], Sep)], parts[1..])
    else Process(acc + [Trim(parts[0], Sep)], parts[1..])
  }

  /** `Regenerator::makePath(...$parts)`. */
  function MakePath(parts: seq<string>): string {
    Join(Process([], parts), Sep)
  }

  /** Once `$processed` is non-empty, every further kept argument is
      trimmed at both ends and appended. */
  lemma {:induction false} ProcessFrom(acc: seq<string>, parts: seq<string>)
    requires |acc| > 0
    ensures Process(acc, parts) == acc + TrimEach(Kept(parts))
    decreases |parts|
  {
    if |parts| > 0 {
      var rest := Kept(parts[1..]);
      if IsEmpty(parts[0]) {
        ProcessFrom(acc, parts[1..]);
      } else {
        var t := Trim(parts[0], Sep);
        ProcessFrom(acc + [t], parts[1..]);
        assert ([parts[0]] + rest)[1..] == rest;
        assert TrimEach([parts[0]] + rest) == [t] + TrimEach(rest);
      }
    }
  }

  /** The loop of `makePath` computes `Normalize` of the non-empty
      arguments: the first kept argument is only right-trimmed, whatever
      `empty()` arguments precede it. */
  lemma {:induction false} ProcessNormalizes(parts: seq<string>)
    ensures Process([], parts) == Normalize(Kept(parts))
  {
    if |parts| > 0 {
      if IsEmpty(parts[0]) {
        ProcessNormalizes(parts[1..]);
      } else {
        var first := TrimRight(parts[0], Sep);
        var empty: seq<string> := [];
        assert empty + [first] == [first];
        ProcessFrom([first], parts[1..]);
        assert ([parts[0]] + Kept(parts[1..]))[1..] == Kept(parts[1..]);
      }
    }
  }

  /** Every `empty()` argument is skipped and every other one contributes
      exactly one segment, for every argument list. */
  lemma ProcessLength(parts: seq<string>)
    ensures |Process([], parts)| == |parts| - CountEmpty(parts)
  {
    ProcessNormalizes(parts);
    KeptLength(parts);
  }

  /** When no normalised segment still holds a separator (arguments carry
      separators only at their trimmed ends, and the first has none in
      front), splitting the result recovers the segments one by one, and
      their number is the number of non-empty arguments. */
  lemma MakePathSegments(parts: seq<string>)
    requires |Kept(parts)| > 0
    requires forall i :: 0 <= i < |Normalize(Kept(parts))| ==> Sep !in Normalize(Kept(parts))[i]
    ensures Split(MakePath(parts), Sep) == Normalize(Kept(parts))
    ensures |Split(MakePath(parts), Sep)| == |parts| - CountEmpty(parts)
  {
    ProcessNormalizes(parts);
    ProcessLength(parts);
    SplitJoin(Normalize(Kept(parts)), Sep);
  }

  /** Skipped arguments are invisible: dropping them beforehand gives the
      same path. */
  lemma {:induction false} MakePathIgnoresEmpty(parts: seq<string>)
    ensures Process([], Kept(parts)) == Process([], parts)
  {
    ProcessNormalizes(parts);
    ProcessNormalizes(Kept(parts));
    KeptIdempotent(parts);
  }

  lemma {:induction false} KeptIdempotent(parts: seq<string>)
    ensures Kept(Kept(parts)) == Kept(parts)
  {
    if |parts| > 0 {
      KeptIdempotent(parts[1..]);
      if !IsEmpty(parts[0]) {
        assert ([parts[0]] + Kept(parts[1..]))[1..] == Kept(parts[1..]);
      }
    }
  }

  /** Only the first kept argument keeps its leading separators, so an
      absolute root stays absolute, as long as something follows it. */
  lemma MakePathKeepsRoot(parts: seq<string>)
    requires |Kept(parts)| > 0 && |Kept(parts)[0]| > 0 && Kept(parts)[0][0] == Sep
    requires |Kept(parts)| > 1 || !AllSep(Kept(parts)[0])
    ensures |MakePath(parts)| > 0 && MakePath(parts)[0] == Sep
  {
    ProcessNormalizes(parts);
    var p := Process([], parts);
    var first := Kept(parts)[0];
    var t := TrimRight(first, Sep);
    if |t| == 0 {
      TrimRightEmptyIffAllSep(first);
      assert |p| > 1;
      assert Join(p, Sep) == p[0] + [Sep] + Join(p[1..], Sep);
    } else {
      TrimRightShape(first, Sep);
      assert t[0] == first[0];
      if |p| > 1 {
        assert Join(p, Sep) == p[0] + [Sep] + Join(p[1..], Sep);
      }
    }
  }

  /** The result never ends in a separator when the last non-empty argument
      holds something other than separators: its trailing separators are
      trimmed off. */
  lemma MakePathNoTrailingSep(parts: seq<string>)
    requires |Kept(parts)| > 0
    requires !AllSep(Kept(parts)[|Kept(parts)| - 1])
    ensures EndsClean(MakePath(parts))
  {
    NormalizeEndsClean(Kept(parts));
    ProcessNormalizes(parts);
  }

  lemma NormalizeEndsClean(k: seq<string>)
    requires |k| > 0 && !AllSep(k[|k| - 1])
    ensures EndsClean(Join(Normalize(k), Sep))
  {
    NormalizeLast(k);
    JoinLast(Normalize(k), Sep);
  }

  /** Non-empty and not ending in a separator. */
  predicate EndsClean(s: string) {
    |s| > 0 && s[|s| - 1] != Sep
  }

  /** The last segment is never empty nor ends with a separator when the last
      kept argument holds something other than separators. */
  lemma NormalizeLast(k: seq<string>)
    requires |k| > 0 && !AllSep(k[|k| - 1])
    ensures |Normalize(k)| == |k|
    ensures var last := Normalize(k)[|k| - 1]; last != [] && last[|last| - 1] != Sep
  {
    var last := k[|k| - 1];
    if |k| == 1 {
      TrimRightEmptyIffAllSep(last);
    } else {
      TrimEmptyIffAllSep(last);
      assert Normalize(k)[|k| - 1] == TrimEach(k[1..])[|k| - 2];
    }
  }

  /** `rtrim` leaves nothing exactly when the string is all separators. */
  lemma TrimRightEmptyIffAllSep(s: string)
    ensures TrimRight(s, Sep) == [] <==> AllSep(s)
  {
    if AllSep(s) {
      assert s == [] + Repeat(Sep, |s|);
      TrimRightUnique(s, Sep, |s|, []);
    } else {
      TrimRightShape(s, Sep);
    }
  }

  /** `trim` leaves nothing exactly when the string is all separators. */
  lemma TrimEmptyIffAllSep(s: string)
    ensures Trim(s, Sep) == [] <==> AllSep(s)
  {
    if AllSep(s) {
      assert s == Repeat(Sep, 0) + [] + Repeat(Sep, |s|);
      TrimUnique(s, Sep, 0, [], |s|);
    } else {
      var r := Trim(s, Sep);
      var k := TrimShape(s, Sep);
      forall i | 0 <= i < |s| && (i < k || k + |r| <= i) ensures s[i] == Sep {
        if i < k {
          assert s[i] == Repeat(Sep, k)[i];
        } else {
          assert s[i] == Repeat(Sep, |s| - |r| - k)[i - k - |r|];
        }
      }
    }
  }

  /** A join ends with the last character of its last segment. */
  lemma {:induction false} JoinLast(segs: seq<string>, sep: char)
    requires |segs| > 0 && |segs[|segs| - 1]| > 0
    ensures var r := Join(segs, sep); var last := segs[|segs| - 1];
      |r| > 0 && r[|r| - 1] == last[|last| - 1]
  {
    if |segs| > 1 {
      JoinLast(segs[1..], sep);
      assert segs[1..][|segs| - 2] == segs[|segs| - 1];
    }
  }

  /** Joining a root that already ends in one separator with plain names
      (as the constructor does with "wp-load.php") yields the root followed
      directly by the names joined: no separator is lost or doubled. */
  lemma MakePathUnderRoot(root: string, names: seq<string>)
    requires |root| >= 1 && root[|root| - 1] == Sep
    requires |root| == 1 || root[|root| - 2] != Sep
    requires |names| > 0
    requires PlainNames(names)
    ensures MakePath([root] + names) == root + Join(names, Sep)
  {
    var body := root[..|root| - 1];
    var j := Join(names, Sep);
    assert MakePath([root] + names) == Join([body] + names, Sep) by {
      SegmentsUnderRoot(root, names);
    }
    assert Join([body] + names, Sep) == root + j by {
      JoinCons(body, names, Sep);
      DropLastSep(root);
    }
  }

  lemma DropLastSep(root: string)
    requires |root| >= 1 && root[|root| - 1] == Sep
    ensures root[..|root| - 1] + [Sep] == root
  {
  }

  lemma SegmentsUnderRoot(root: string, names: seq<string>)
    requires |root| >= 1 && root[|root| - 1] == Sep
    requires |root| == 1 || root[|root| - 2] != Sep
    requires PlainNames(names)
    ensures Process([], [root] + names) == [root[..|root| - 1]] + names
  {
    var body := root[..|root| - 1];
    var parts := [root] + names;
    TrimRightOneSep(root);
    assert Process([], parts) == Process([body], names) by {
      var empty: seq<string> := [];
      assert empty + [body] == [body];
      assert parts[0] == root && parts[1..] == names;
    }
    assert Process([body], names) == [body] + names by {
      ProcessFrom([body], names);
      KeptAll(names);
      TrimEachClean(names);
    }
  }

  /** `rtrim` of a string ending in exactly one separator drops just that
      separator. */
  lemma TrimRightOneSep(root: string)
    requires |root| >= 1 && root[|root| - 1] == Sep
    requires |root| == 1 || root[|root| - 2] != Sep
    ensures TrimRight(root, Sep) == root[..|root| - 1]
  {
    var body := root[..|root| - 1];
    assert TrimRight(body, Sep) == body;
  }

  /** Names without separators at their ends pass through `trim` unchanged. */
  lemma {:induction false} TrimEachClean(names: seq<string>)
    requires PlainNames(names)
    ensures TrimEach(names) == names
  {
    if |names| > 0 {
      TrimClean(names[0], Sep);
      TrimEachClean(names[1..]);
      assert names == [names[0]] + names[1..];
    }
  }

  /** A path component with no separator at either end that `empty()`
      does not reject. */
  predicate PlainName(s: string) {
    !IsEmpty(s) && s[0] != Sep && s[|s| - 1] != Sep
  }

  predicate PlainNames(names: seq<string>) {
    forall i :: 0 <= i < |names| ==> PlainName(names[i])
  }

  /** With no `empty()` argument, every argument is kept. */
  lemma {:induction false} KeptAll(parts: seq<string>)
    requires forall i :: 0 <= i < |parts| ==> !IsEmpty(parts[i])
    ensures Kept(parts) == parts
  {
    if |parts| > 0 {
      KeptAll(parts[1..]);
      assert parts == [parts[0]] + parts[1..];
    }
  }
}
