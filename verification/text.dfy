/**
 * Text operations of Rust's `str` used by the codec and the parsers, over
 * sequences of any element type (bytes, or characters): trimming,
 * `lines`, `split` and `split_once`.
 */
module Texts {
  import opened Wrappers

  predicate AllSatisfy<T>(s: seq<T>, p: T -> bool)
  {
    forall i | 0 <= i < |s| :: p(s[i])
  }

  /** How many elements satisfying `ws` open `s`. */
  function LeadCount<T>(s: seq<T>, ws: T -> bool): (i: nat)
    ensures i <= |s| && AllSatisfy(s[..i], ws)
    ensures i < |s| ==> !ws(s[i])
  {
    if s == [] || !ws(s[0]) then 0
    else
      var i := 1 + LeadCount(s[1..], ws);
      assert s[..i] == [s[0]] + s[1..][..i - 1];
      i
  }

  /** Where the elements satisfying `ws` that close `s` begin. */
  function TrailStart<T>(s: seq<T>, ws: T -> bool): (j: nat)
    ensures j <= |s| && AllSatisfy(s[j..], ws)
    ensures j > 0 ==> !ws(s[j - 1])
    decreases |s|
  {
    if s == [] || !ws(s[|s| - 1]) then |s|
    else
      var j := TrailStart(s[..|s| - 1], ws);
      assert s[j..] == s[..|s| - 1][j..] + [s[|s| - 1]];
      j
  }

  /** `s` without the elements satisfying `ws` at either end (`trim` for a given notion of whitespace). */
  function Trim<T>(s: seq<T>, ws: T -> bool): (r: seq<T>)
    ensures r != [] ==> !ws(r[0]) && !ws(r[|r| - 1])
    ensures AllSatisfy(s, ws) ==> r == []
  {
    var i := LeadCount(s, ws);
    var j := TrailStart(s[i..], ws);
    assert AllSatisfy(s, ws) ==> i == |s|;
    s[i..][..j]
  }

  lemma {:induction false} LeadCountPadded<T>(lead: seq<T>, t: seq<T>, ws: T -> bool)
    requires AllSatisfy(lead, ws) && (t != [] ==> !ws(t[0]))
    ensures LeadCount(lead + t, ws) == |lead|
  {
    if lead == [] {
      assert lead + t == t;
    } else {
      assert (lead + t)[1..] == lead[1..] + t;
      LeadCountPadded(lead[1..], t, ws);
    }
  }

  lemma {:induction false} TrailStartPadded<T>(t: seq<T>, trail: seq<T>, ws: T -> bool)
    requires AllSatisfy(trail, ws) && (t != [] ==> !ws(t[|t| - 1]))
    ensures TrailStart(t + trail, ws) == |t|
    decreases |trail|
  {
    if trail == [] {
      assert t + trail == t;
    } else {
      assert (t + trail)[..|t + trail| - 1] == t + trail[..|trail| - 1];
      TrailStartPadded(t, trail[..|trail| - 1], ws);
    }
  }

  /** Trimming strips exactly the elements added around a string with no such bytes at its ends. */
  lemma TrimPadded<T>(lead: seq<T>, s: seq<T>, trail: seq<T>, ws: T -> bool)
    requires AllSatisfy(lead, ws) && AllSatisfy(trail, ws)
    requires s != [] && !ws(s[0]) && !ws(s[|s| - 1])
    ensures Trim(lead + s + trail, ws) == s
  {
    var t := lead + s + trail;
    assert t == lead + (s + trail);
    LeadCountPadded(lead, s + trail, ws);
    assert t[|lead|..] == s + trail;
    TrailStartPadded(s, trail, ws);
    assert (s + trail)[..|s|] == s;
  }


  /** Index of the first `lf` in `s`, or `|s|`. */
  function LineEnd<T(==)>(s: seq<T>, lf: T): (i: nat)
    ensures i <= |s|
    ensures lf !in s[..i]
    ensures i < |s| ==> s[i] == lf
  {
    if s == [] then 0
    else if s[0] == lf then 0
    else 1 + LineEnd(s[1..], lf)
  }

  /** Drops one trailing `cr`. */
  function StripCR<T(==)>(l: seq<T>, cr: T): seq<T>
  {
    if l != [] && l[|l| - 1] == cr then l[..|l| - 1] else l
  }

  /**
   * `str::lines`: split after every `lf`; a line ended by `lf` loses it and
   * then one `cr` before it; a last line without `lf` is kept whole; a
   * final `lf` does not start another line.
   */
  function Lines<T(==)>(s: seq<T>, lf: T, cr: T): (ls: seq<seq<T>>)
    ensures forall k | 0 <= k < |ls| :: lf !in ls[k]
    ensures ls == [] <==> s == []
    decreases |s|
  {
    if s == [] then []
    else
      var i := LineEnd(s, lf);
      if i == |s| then [s]
      else
        var rest := Lines(s[i + 1..], lf, cr);
        assert lf !in StripCR(s[..i], cr) by {
          assert forall b | b in StripCR(s[..i], cr) :: b in s[..i];
        }
        [StripCR(s[..i], cr)] + rest
  }

  /** The pieces joined with `sep` between them. */
  function Join<T>(ls: seq<seq<T>>, sep: T): seq<T>
    decreases |ls|
  {
    if ls == [] then []
    else if |ls| == 1 then ls[0]
    else ls[0] + [sep] + Join(ls[1..], sep)
  }

  /**
   * Splitting into lines loses nothing for text without `cr` that does not
   * end in `lf`: joining the lines back with `lf` gives the text.
   */
  lemma {:induction false} JoinLines<T>(s: seq<T>, lf: T, cr: T)
    requires cr !in s
    requires s == [] || s[|s| - 1] != lf
    ensures Join(Lines(s, lf, cr), lf) == s
    decreases |s|
  {
    if s != [] && LineEnd(s, lf) < |s| {
      var i := LineEnd(s, lf);
      var head := s[..i];
      var rest := s[i + 1..];
      LinesStep(s, lf, cr);
      NoCRInParts(s, i, lf, cr);
      var tail := Lines(rest, lf, cr);
      JoinLines(rest, lf, cr);
      JoinCons(head, tail, lf);
      SplitAt(s, i);
    }
  }

  /** One line off the front of a text that holds an `lf`. */
  lemma LinesStep<T>(s: seq<T>, lf: T, cr: T)
    requires s != [] && LineEnd(s, lf) < |s|
    ensures Lines(s, lf, cr) == [StripCR(s[..LineEnd(s, lf)], cr)] + Lines(s[LineEnd(s, lf) + 1..], lf, cr)
  {
  }

  /** Both sides of an `lf` in text without `cr` hold no `cr`; the side after it keeps the last element. */
  lemma NoCRInParts<T>(s: seq<T>, i: nat, lf: T, cr: T)
    requires cr !in s && i < |s| && s[i] == lf && s[|s| - 1] != lf
    ensures StripCR(s[..i], cr) == s[..i]
    ensures cr !in s[i + 1..] && s[i + 1..] != [] && s[i + 1..][|s[i + 1..]| - 1] != lf
  {
    if i > 0 {
      assert s[..i][i - 1] == s[i - 1];
    }
    assert forall b | b in s[i + 1..] :: b in s;
  }

  lemma JoinCons<T>(head: seq<T>, tail: seq<seq<T>>, sep: T)
    requires tail != []
    ensures Join([head] + tail, sep) == head + [sep] + Join(tail, sep)
  {
    assert ([head] + tail)[1..] == tail;
  }

  lemma ConcatAssoc<T>(a: seq<T>, b: seq<T>, c: seq<T>)
    ensures (a + b) + c == a + (b + c)
  {
  }

  lemma SplitAt<T>(s: seq<T>, i: nat)
    requires i < |s|
    ensures s == s[..i] + [s[i]] + s[i + 1..]
  {
    assert s[..i] + [s[i]] == s[..i + 1];
  }

  /** `lf`, `cr lf` and a missing final line ending all end a line. */
  lemma LineEndings<T>(a: seq<T>, b: seq<T>, lf: T, cr: T)
    requires lf !in a && cr !in a && a != [] && lf != cr
    ensures Lines(a + [lf] + b, lf, cr) == [a] + Lines(b, lf, cr)
    ensures Lines(a + [cr, lf] + b, lf, cr) == [a] + Lines(b, lf, cr)
    ensures Lines(a + [lf], lf, cr) == Lines(a, lf, cr) == [a]
  {
    LineEndAt(a, [lf] + b, lf);
    assert a + [lf] + b == a + ([lf] + b);
    assert (a + [lf] + b)[..|a|] == a;
    assert (a + [lf] + b)[|a| + 1..] == b;
    assert lf !in a + [cr] by {
      assert forall x | x in a + [cr] :: x in a || x == cr;
    }
    LineEndAt(a + [cr], [lf] + b, lf);
    assert a + [cr, lf] + b == (a + [cr]) + ([lf] + b);
    assert (a + [cr, lf] + b)[..|a| + 1] == a + [cr];
    assert (a + [cr, lf] + b)[|a| + 2..] == b;
    assert StripCR(a + [cr], cr) == a;
    assert StripCR(a, cr) == a by {
      assert a[|a| - 1] in a;
    }
    LineEndAt(a, [lf], lf);
    assert (a + [lf])[..|a|] == a;
    assert (a + [lf])[|a| + 1..] == [];
    LineEndAt(a, [], lf);
    assert a + [] == a;
  }

  lemma {:induction false} LineEndAt<T>(a: seq<T>, rest: seq<T>, lf: T)
    requires lf !in a
    requires rest == [] || rest[0] == lf
    ensures LineEnd(a + rest, lf) == |a|
    decreases |a|
  {
    if a == [] {
      assert a + rest == rest;
    } else {
      assert (a + rest)[0] == a[0];
      assert (a + rest)[1..] == a[1..] + rest;
      LineEndAt(a[1..], rest, lf);
    }
  }

  /** `str::split` on one separator: the pieces between separators; the empty text is one empty piece. */
  function Split<T(==)>(s: seq<T>, sep: T): (ps: seq<seq<T>>)
    ensures ps != []
    ensures forall k | 0 <= k < |ps| :: sep !in ps[k]
    decreases |s|
  {
    var i := LineEnd(s, sep);
    if i == |s| then [s]
    else [s[..i]] + Split(s[i + 1..], sep)
  }

  /** Splitting and joining with the same separator are inverse. */
  lemma {:induction false} JoinSplit<T>(s: seq<T>, sep: T)
    ensures Join(Split(s, sep), sep) == s
    decreases |s|
  {
    var i := LineEnd(s, sep);
    if i < |s| {
      JoinSplit(s[i + 1..], sep);
      JoinCons(s[..i], Split(s[i + 1..], sep), sep);
      SplitAt(s, i);
    }
  }

  /** `str::split_once`: the text before and after the first separator, if there is one. */
  function SplitOnce<T(==)>(s: seq<T>, sep: T): (r: Option<(seq<T>, seq<T>)>)
    ensures r.None? <==> sep !in s
    ensures r.Some? ==> sep !in r.value.0 && s == r.value.0 + [sep] + r.value.1
  {
    var i := LineEnd(s, sep);
    if i == |s| then
      assert s[..i] == s;
      None
    else
      SplitAt(s, i);
      Some((s[..i], s[i + 1..]))
  }

}
