/**
 The `StringUtils` class: `ucfirst` and `camelToUnderscore`. Case mapping is
 modelled on ASCII letters only; every other character maps to itself.
 */
module StringUtils {

  predicate IsUpper(c: char) {
    'A' <= c <= 'Z'
  }

  predicate IsLower(c: char) {
    'a' <= c <= 'z'
  }

  /** No character of `s` is an upper-case letter. */
  predicate NoUpper(s: string) {
    forall i | 0 <= i < |s| :: !IsUpper(s[i])
  }

  /** `c.toUpperCase()` on ASCII: a lower-case letter becomes the same letter in upper case. */
  function UpperChar(c: char): (u: char)
    ensures !IsLower(u)
    ensures IsLower(c) ==> IsUpper(u) && u as int - 'A' as int == c as int - 'a' as int
    ensures !IsLower(c) ==> u == c
  {
    if IsLower(c) then (c as int - 32) as char else c
  }

  /** `c.toLowerCase()` on ASCII: an upper-case letter becomes the same letter in lower case. */
  function LowerChar(c: char): (l: char)
    ensures !IsUpper(l)
    ensures IsUpper(c) ==> IsLower(l) && l as int - 'a' as int == c as int - 'A' as int
    ensures !IsUpper(c) ==> l == c
  {
    if IsUpper(c) then (c as int + 32) as char else c
  }

  /** The two case maps undo each other on the letters they change. */
  lemma CaseRoundTrip(c: char)
    ensures IsLower(c) ==> LowerChar(UpperChar(c)) == c
    ensures IsUpper(c) ==> UpperChar(LowerChar(c)) == c
  {
  }

  /** `s.toLowerCase()`: the same length, every character lower-cased. */
  function ToLower(s: string): (r: string)
    ensures |r| == |s|
    ensures forall i | 0 <= i < |s| :: r[i] == LowerChar(s[i])
    ensures NoUpper(r)
  {
    if |s| == 0 then "" else [LowerChar(s[0])] + ToLower(s[1..])
  }

  /** Lower-casing changes a string exactly when it holds an upper-case letter. */
  lemma ToLowerIdentity(s: string)
    ensures ToLower(s) == s <==> NoUpper(s)
  {
  }

  /** `ucfirst(str)`: the first character upper-cased, the rest kept. */
  function Ucfirst(str: string): (r: string)
    ensures |r| == |str|
    ensures |str| > 0 ==> r[0] == UpperChar(str[0]) && r[1..] == str[1..]
  {
    if |str| < 1 then str else [UpperChar(str[0])] + str[1..]
  }

  /** `ucfirst` only changes the case of the first character. */
  lemma UcfirstOnlyRecases(str: string)
    ensures ToLower(Ucfirst(str)) == ToLower(str)
  {
  }

  /** `ucfirst` is idempotent. */
  lemma UcfirstIdempotent(str: string)
    ensures Ucfirst(Ucfirst(str)) == Ucfirst(str)
  {
  }

  /*
   `str.split(/(?=[A-Z])/)`. The pattern is an empty look-ahead, so it matches
   at position `q` exactly when `str[q]` is an upper-case letter, and the
   match ends where it starts. The function follows the loop of the
   `RegExp.prototype[@@split]` algorithm of ECMA-262: `p` is the start of the
   current piece and `q` the position tried next; an empty match at `p`
   itself does not split.
   */

  function SplitLoop(s: string, p: nat, q: nat): (pieces: seq<string>)
    requires p <= q <= |s|
    ensures |pieces| >= 1
    decreases |s| - q, q - p
  {
    if q >= |s| then [s[p..]]
    else if !IsUpper(s[q]) then SplitLoop(s, p, q + 1)
    else if q == p then SplitLoop(s, p, q + 1)
    else [s[p..q]] + SplitLoop(s, q, q)
  }

  /**
   `pieces.join(sep)`: the pieces in order with one separator between each
   two; with an empty separator it is plain concatenation.
   */
  function Join(pieces: seq<string>, sep: string): (r: string)
    ensures |pieces| == 0 ==> r == ""
    ensures |pieces| == 1 ==> r == pieces[0]
    ensures sep == "" ==> r == Concat(pieces)
  {
    if |pieces| == 0 then ""
    else if |pieces| == 1 then
      assert Concat(pieces) == pieces[0] + Concat([]);
      pieces[0]
    else
      assert sep == "" ==> sep + Join(pieces[1..], sep) == Join(pieces[1..], sep);
      pieces[0] + (sep + Join(pieces[1..], sep))
  }

  /** A join is as long as its pieces plus one separator fewer than there are pieces. */
  lemma {:induction false} JoinLength(pieces: seq<string>, sep: string)
    requires |pieces| > 0
    ensures |Join(pieces, sep)| == |Concat(pieces)| + (|pieces| - 1) * |sep|
  {
    if |pieces| > 1 {
      JoinLength(pieces[1..], sep);
    }
  }

  /**
   Joining two non-empty runs of pieces puts one separator between their joins;
   with the single-piece case this fixes `Join` for every separator.
   */
  lemma {:induction false} JoinAppend(a: seq<string>, b: seq<string>, sep: string)
    requires |a| > 0 && |b| > 0
    ensures Join(a + b, sep) == Join(a, sep) + sep + Join(b, sep)
  {
    if |a| == 1 {
      assert (a + b)[1..] == b;
    } else {
      assert (a + b)[1..] == a[1..] + b;
      JoinAppend(a[1..], b, sep);
    }
  }

  /** The pieces written one after another, with no separator. */
  function Concat(pieces: seq<string>): string {
    if |pieces| == 0 then "" else pieces[0] + Concat(pieces[1..])
  }

  /**
   What the split produces: pieces that concatenate back to the input, none
   of them empty, each after the first starting with an upper-case letter, and
   no upper-case letter anywhere but at the start of a piece. So the input is
   cut before every upper-case letter except one at its very start.
   */
  lemma {:induction false} SplitLoopShape(s: string, p: nat, q: nat)
    requires p <= q <= |s| && p < |s|
    requires forall i | p < i < q :: !IsUpper(s[i])
    ensures var ps := SplitLoop(s, p, q);
            && Concat(ps) == s[p..]
            && (forall k | 0 <= k < |ps| :: |ps[k]| > 0)
            && (forall k | 0 < k < |ps| :: IsUpper(ps[k][0]))
            && (forall k | 0 <= k < |ps| :: NoUpper(ps[k][1..]))
    decreases |s| - q, q - p
  {
    var ps := SplitLoop(s, p, q);
    if q >= |s| {
      assert ps == [s[p..]];
      assert Concat(ps) == s[p..] + Concat([]);
      assert forall i | 0 <= i < |s[p..][1..]| :: s[p..][1..][i] == s[p + 1 + i];
    } else if !IsUpper(s[q]) || q == p {
      SplitLoopShape(s, p, q + 1);
    } else {
      var rest := SplitLoop(s, q, q);
      assert ps == [s[p..q]] + rest;
      SplitLoopShape(s, q, q);
      assert ps[1..] == rest;
      assert Concat(ps) == s[p..q] + Concat(rest);
      assert s[p..] == s[p..q] + s[q..];
      assert forall i | 0 <= i < |s[p..q][1..]| :: s[p..q][1..][i] == s[p + 1 + i];
      assert forall k | 1 <= k < |ps| :: ps[k] == rest[k - 1];
    }
  }

  /*
   A reference definition of `camelToUnderscore`: keep the first character,
   put `_` in front of every later upper-case letter, lower-case the lot.
   */

  /** One character of the reference: an upper-case letter gets a `_` in front. */
  function Marked(c: char): string {
    if IsUpper(c) then "_" + [c] else [c]
  }

  /** `s` from index `i` on, with `_` inserted before each upper-case letter. */
  function UnderscoredFrom(s: string, i: nat): (r: string)
    requires i <= |s|
    ensures |r| == |s| - i + CountUpperFrom(s, i)
    decreases |s| - i
  {
    if i == |s| then "" else Marked(s[i]) + UnderscoredFrom(s, i + 1)
  }

  /** The number of upper-case letters in `s` from index `i` on. */
  function CountUpperFrom(s: string, i: nat): nat
    requires i <= |s|
    decreases |s| - i
  {
    if i == |s| then 0 else (if IsUpper(s[i]) then 1 else 0) + CountUpperFrom(s, i + 1)
  }

  /** Inserting before upper-case letters changes nothing when there are none. */
  lemma {:induction false} UnderscoredFromNoUpper(s: string, i: nat)
    requires i <= |s| && NoUpper(s)
    ensures UnderscoredFrom(s, i) == s[i..]
    decreases |s| - i
  {
    if i < |s| {
      UnderscoredFromNoUpper(s, i + 1);
      assert s[i..] == [s[i]] + s[i + 1..];
    }
  }

  /** `camelToUnderscore(str)`; the empty string is falsy and gives `''`. */
  function CamelToUnderscore(str: string): (r: string)
    ensures NoUpper(r)
    ensures |str| == 0 ==> r == ""
  {
    if |str| == 0 then "" else ToLower(Join(SplitLoop(str, 0, 0), "_"))
  }

  /**
   What the loop state `(p, q)` contributes to the joined string: the input
   verbatim from `p` up to `q`, then with `_` before each upper-case letter.
   At `p == q` the character at `p` starts a piece and gets no `_`.
   */
  function JoinedFrom(s: string, p: nat, q: nat): string
    requires p <= q <= |s|
  {
    if p == q < |s| then [s[p]] + UnderscoredFrom(s, p + 1) else s[p..q] + UnderscoredFrom(s, q)
  }

  /** The loop state `(p, q)` joins to what the reference predicts. */
  predicate JoinMatches(s: string, p: nat, q: nat)
    requires p <= q <= |s|
  {
    Join(SplitLoop(s, p, q), "_") == JoinedFrom(s, p, q)
  }

  /** Joining the split with `_` is the reference insertion. */
  lemma {:induction false} JoinSplitLoop(s: string, p: nat, q: nat)
    requires p <= q <= |s|
    ensures JoinMatches(s, p, q)
    decreases |s| - q, q - p
  {
    if q >= |s| {
      JoinStepEnd(s, p, q);
    } else if p == q {
      JoinSplitLoop(s, p, q + 1);
      JoinStepStart(s, p);
    } else if !IsUpper(s[q]) {
      JoinSplitLoop(s, p, q + 1);
      JoinStepLower(s, p, q);
    } else {
      JoinSplitLoop(s, q, q);
      JoinStepUpper(s, p, q);
    }
  }

  /** At the end of the input the last piece is the rest of it. */
  lemma JoinStepEnd(s: string, p: nat, q: nat)
    requires p <= q == |s|
    ensures JoinMatches(s, p, q)
  {
    assert s[p..q] + "" == s[p..];
  }

  /** The character at a piece start is never cut off. */
  lemma JoinStepStart(s: string, p: nat)
    requires p < |s|
    requires JoinMatches(s, p, p + 1)
    ensures JoinMatches(s, p, p)
  {
    assert SplitLoop(s, p, p) == SplitLoop(s, p, p + 1);
    assert s[p..p + 1] == [s[p]];
  }

  /** Moving past a character that is not upper-case. */
  lemma JoinStepLower(s: string, p: nat, q: nat)
    requires p < q < |s| && !IsUpper(s[q])
    requires JoinMatches(s, p, q + 1)
    ensures JoinMatches(s, p, q)
  {
    assert SplitLoop(s, p, q) == SplitLoop(s, p, q + 1);
    var tail := UnderscoredFrom(s, q + 1);
    assert UnderscoredFrom(s, q) == [s[q]] + tail;
    assert s[p..q + 1] == s[p..q] + [s[q]];
    assert (s[p..q] + [s[q]]) + tail == s[p..q] + ([s[q]] + tail);
  }

  /** Cutting before an upper-case letter adds the `_` the reference puts there. */
  lemma JoinStepUpper(s: string, p: nat, q: nat)
    requires p < q < |s| && IsUpper(s[q])
    requires JoinMatches(s, q, q)
    ensures JoinMatches(s, p, q)
  {
    var rest := SplitLoop(s, q, q);
    var ps := [s[p..q]] + rest;
    var tail := UnderscoredFrom(s, q + 1);
    assert SplitLoop(s, p, q) == ps;
    assert ps[1..] == rest;
    assert Join(ps, "_") == s[p..q] + "_" + Join(rest, "_");
    assert Join(rest, "_") == [s[q]] + tail;
    assert UnderscoredFrom(s, q) == ("_" + [s[q]]) + tail;
    assert s[p..q] + "_" + ([s[q]] + tail) == s[p..q] + (("_" + [s[q]]) + tail);
  }

  /** `camelToUnderscore` agrees with the reference definition. */
  lemma CamelToUnderscoreReference(str: string)
    requires |str| > 0
    ensures CamelToUnderscore(str) == ToLower([str[0]] + UnderscoredFrom(str, 1))
  {
    JoinSplitLoop(str, 0, 0);
  }

  /**
   One `_` is added per upper-case letter after the first character.
   */
  lemma CamelToUnderscoreLength(str: string)
    requires |str| > 0
    ensures |CamelToUnderscore(str)| == |str| + CountUpperFrom(str, 1)
  {
    CamelToUnderscoreReference(str);
  }

  /** A string without upper-case letters comes back unchanged. */
  lemma CamelToUnderscoreNoUpper(str: string)
    requires NoUpper(str)
    ensures CamelToUnderscore(str) == str
  {
    if |str| > 0 {
      CamelToUnderscoreReference(str);
      UnderscoredFromNoUpper(str, 1);
      assert [str[0]] + str[1..] == str;
      ToLowerIdentity(str);
    }
  }
}
