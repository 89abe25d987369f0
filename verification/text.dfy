/**
  The few JavaScript string primitives the modelled code relies on, stated on
  `string` = `seq<char>`: `toLowerCase` (on ASCII letters only), `includes`,
  `endsWith`, and `split('\n')` with its inverse `join('\n')`.
 */
module Text {

  predicate IsUpper(c: char) { 'A' <= c <= 'Z' }

  predicate IsLowerLetter(c: char) { 'a' <= c <= 'z' }

  predicate IsDigit(c: char) { '0' <= c <= '9' }

  /** `toLowerCase` on one character; characters other than `A`..`Z` are kept. */
  function LowerChar(c: char): (r: char)
    ensures IsUpper(c) ==> IsLowerLetter(r)
    ensures !IsUpper(c) ==> r == c
    ensures !IsUpper(r)
  {
    if IsUpper(c) then (c as int - 'A' as int + 'a' as int) as char else c
  }

  /** A capital becomes the small letter at the same place in the alphabet. */
  lemma {:induction false} LowerCharShift(c: char)
    requires IsUpper(c)
    ensures LowerChar(c) as int - 'a' as int == c as int - 'A' as int
  {
  }

  /** `toLowerCase` on a string: one character in, one character out. */
  function Lower(s: string): (r: string)
    ensures |r| == |s|
    ensures forall k :: 0 <= k < |s| ==> r[k] == LowerChar(s[k])
  {
    seq(|s|, k requires 0 <= k < |s| => LowerChar(s[k]))
  }

  /** Lowercasing is idempotent. */
  lemma {:induction false} LowerIdempotent(s: string)
    ensures Lower(Lower(s)) == Lower(s)
  {
  }

  /** `t` occurs in `s` starting at position `k`. */
  predicate OccursAt(s: string, t: string, k: nat)
  {
    k + |t| <= |s| && s[k..k + |t|] == t
  }

  /** `s.includes(t)`: scans the start positions from left to right. */
  function Includes(s: string, t: string): (r: bool)
    ensures |t| == 0 ==> r
    ensures r ==> |t| <= |s|
    decreases |s|
  {
    if |t| <= |s| && s[..|t|] == t then true
    else if |s| == 0 then false
    else Includes(s[1..], t)
  }

  /** `Includes` holds exactly when `t` occurs at some position of `s`. */
  lemma {:induction false} IncludesIff(s: string, t: string)
    ensures Includes(s, t) <==> exists k: nat :: OccursAt(s, t, k)
    decreases |s|
  {
    if |t| <= |s| && s[..|t|] == t {
      assert OccursAt(s, t, 0);
    } else if |s| == 0 {
    } else {
      IncludesIff(s[1..], t);
      if exists k: nat :: OccursAt(s[1..], t, k) {
        var k: nat :| OccursAt(s[1..], t, k);
        assert s[1..][k..k + |t|] == s[k + 1..k + 1 + |t|];
        assert OccursAt(s, t, k + 1);
      }
      if exists k: nat :: OccursAt(s, t, k) {
        var k: nat :| OccursAt(s, t, k);
        if k > 0 {
          assert s[1..][k - 1..k - 1 + |t|] == s[k..k + |t|];
          assert OccursAt(s[1..], t, k - 1);
        }
      }
    }
  }

  /** Every string includes the empty string. */
  lemma {:induction false} IncludesEmpty(s: string)
    ensures Includes(s, "")
  {
    assert s[..0] == "";
  }

  /** If `s` includes `t` and `t` includes `u`, then `s` includes `u`. */
  lemma {:induction false} IncludesTransitive(s: string, t: string, u: string)
    ensures Includes(s, t) && Includes(t, u) ==> Includes(s, u)
  {
    if Includes(s, t) && Includes(t, u) {
      IncludesIff(s, t);
      IncludesIff(t, u);
      var i: nat :| OccursAt(s, t, i);
      var j: nat :| OccursAt(t, u, j);
      forall p | 0 <= p < |u| ensures s[i + j + p] == u[p] {
        assert u[p] == t[j..j + |u|][p] == t[j + p];
        assert t[j + p] == s[i..i + |t|][j + p] == s[i + j + p];
      }
      assert OccursAt(s, u, i + j);
      IncludesIff(s, u);
    }
  }

  /** `s.endsWith(t)`. */
  predicate EndsWith(s: string, t: string)
  {
    |t| <= |s| && s[|s| - |t|..] == t
  }

  /** Number of occurrences of `c` in `s`. */
  function Count(s: string, c: char): nat
  {
    if |s| == 0 then 0 else (if s[0] == c then 1 else 0) + Count(s[1..], c)
  }

  /** `s.split('\n')`: the pieces between newline characters, one more than
      there are newlines. The empty string gives one empty piece, and so does
      the text after a trailing newline. */
  function Split(s: string): (r: seq<string>)
    ensures |r| == Count(s, '\n') + 1
    ensures forall k :: 0 <= k < |r| ==> '\n' !in r[k]
  {
    if |s| == 0 then [""]
    else
      var rest := Split(s[1..]);
      if s[0] == '\n' then [""] + rest
      else [[s[0]] + rest[0]] + rest[1..]
  }

  /** `parts.join('\n')`. */
  function Join(parts: seq<string>): string
    requires |parts| >= 1
  {
    if |parts| == 1 then parts[0]
    else parts[0] + "\n" + Join(parts[1..])
  }

  /** Joining the pieces of a split gives back the text. */
  lemma {:induction false} JoinSplit(s: string)
    ensures Join(Split(s)) == s
  {
    if |s| > 0 {
      JoinSplit(s[1..]);
      var rest := Split(s[1..]);
      if s[0] == '\n' {
        assert Split(s)[1..] == rest;
      } else {
        JoinHead(s[0], rest);
      }
    }
  }

  /** Prefixing the first piece prefixes the joined text. */
  lemma {:induction false} JoinHead(c: char, parts: seq<string>)
    requires |parts| >= 1
    ensures Join([[c] + parts[0]] + parts[1..]) == [c] + Join(parts)
  {
    var q := [[c] + parts[0]] + parts[1..];
    if |parts| > 1 {
      var tail := Join(parts[1..]);
      assert Join(q) == ([c] + parts[0]) + "\n" + tail by {
        assert q[0] == [c] + parts[0] && q[1..] == parts[1..];
      }
      assert ([c] + parts[0]) + "\n" + tail == [c] + (parts[0] + "\n" + tail);
    } else {
      assert q == [[c] + parts[0]];
    }
  }

  /** Splitting a join of newline-free pieces gives back the pieces. */
  lemma {:induction false} SplitJoin(parts: seq<string>)
    requires |parts| >= 1
    requires forall k :: 0 <= k < |parts| ==> '\n' !in parts[k]
    ensures Split(Join(parts)) == parts
    decreases |parts|, |parts[0]|
  {
    if |parts[0]| > 0 {
      var c := parts[0][0];
      var parts' := [parts[0][1..]] + parts[1..];
      assert c in parts[0];
      assert '\n' !in parts'[0] by {
        assert forall x :: x in parts'[0] ==> x in parts[0];
      }
      forall k | 1 <= k < |parts'|
        ensures '\n' !in parts'[k]
      {
        assert parts'[k] == parts[k];
      }
      SplitJoin(parts');
      SplitCharStep(c, parts');
      assert parts[0] == [c] + parts'[0] && parts'[1..] == parts[1..];
      assert [[c] + parts'[0]] + parts'[1..] == parts;
    } else if |parts| > 1 {
      forall k | 0 <= k < |parts| - 1
        ensures '\n' !in parts[1..][k]
      {
        assert parts[1..][k] == parts[k + 1];
      }
      SplitJoin(parts[1..]);
      SplitNewlineStep(parts);
    }
  }

  /** A character other than a newline in front of a join extends the first
      piece of the split. */
  lemma {:induction false} SplitCharStep(c: char, parts: seq<string>)
    requires |parts| >= 1 && c != '\n'
    requires Split(Join(parts)) == parts
    ensures Split(Join([[c] + parts[0]] + parts[1..])) == [[c] + parts[0]] + parts[1..]
  {
    JoinHead(c, parts);
    var t := [c] + Join(parts);
    assert t[0] == c && t[1..] == Join(parts);
  }

  /** An empty first piece splits off at the leading newline. */
  lemma {:induction false} SplitNewlineStep(parts: seq<string>)
    requires |parts| > 1 && parts[0] == ""
    requires Split(Join(parts[1..])) == parts[1..]
    ensures Split(Join(parts)) == parts
  {
    var t := Join(parts);
    assert t == "\n" + Join(parts[1..]);
    assert t[0] == '\n' && t[1..] == Join(parts[1..]);
    assert [""] + parts[1..] == parts;
  }
}
