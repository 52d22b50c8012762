/**
 * The query-string parser of the first-generation server: `&` separates
 * pieces, the first `=` of a piece separates key from value, and a key
 * seen again collects its values in order.
 */
module Queries {
  import opened Wrappers
  import opened Texts

  datatype QueryValue = Single(value: string) | Multi(values: seq<string>)

  type Query = map<string, QueryValue>

  /** Every value a `QueryValue` holds, in order. */
  function Values(v: QueryValue): seq<string>
  {
    match v
    case Single(x) => [x]
    case Multi(xs) => xs
  }

  /** A piece's key and value: split at the first `=`; without one, the whole piece is the key and the value is empty. */
  function KeyValue(piece: string): (string, string)
  {
    match SplitOnce(piece, '=')
    case None => (piece, "")
    case Some((k, v)) => (k, v)
  }

  lemma KeyValueSplits(piece: string)
    ensures '=' !in piece ==> KeyValue(piece) == (piece, "")
    ensures '=' in piece ==> '=' !in KeyValue(piece).0 && piece == KeyValue(piece).0 + "=" + KeyValue(piece).1
  {
  }

  /** A key's first value is `Single`; the second makes it `Multi`; later ones are appended. */
  function Push(prior: Option<QueryValue>, v: string): (r: QueryValue)
    ensures prior.None? ==> r == Single(v)
    ensures prior.Some? ==> r.Multi? && Values(r) == Values(prior.value) + [v]
  {
    match prior
    case None => Single(v)
    case Some(Single(a)) => Multi([a, v])
    case Some(Multi(vs)) => Multi(vs + [v])
  }

  function Lookup(q: Query, k: string): Option<QueryValue>
  {
    if k in q then Some(q[k]) else None
  }

  /** One piece added to the query. */
  function Step(q: Query, piece: string): Query
  {
    var (k, v) := KeyValue(piece);
    q[k := Push(Lookup(q, k), v)]
  }

  function AddPieces(q: Query, pieces: seq<string>): Query
    decreases |pieces|
  {
    if pieces == [] then q
    else AddPieces(Step(q, pieces[0]), pieces[1..])
  }

  /** `Query::from`. */
  function Parse(s: string): (q: Query)
    ensures s == [] ==> q == map[]
  {
    if s == [] then map[] else AddPieces(map[], Split(s, '&'))
  }

  /** `Query::get`. */
  function Get(q: Query, key: string): (r: Option<QueryValue>)
    ensures r.Some? <==> key in q
  {
    Lookup(q, key)
  }

  /** The values of the pieces whose key is `k`, in order. */
  function ValuesOf(pieces: seq<string>, k: string): seq<string>
    decreases |pieces|
  {
    if pieces == [] then []
    else (if KeyValue(pieces[0]).0 == k then [KeyValue(pieces[0]).1] else []) + ValuesOf(pieces[1..], k)
  }

  /** `Multi` only ever holds two values or more. */
  ghost predicate WellFormed(q: Query)
  {
    forall k | k in q :: q[k].Multi? ==> |q[k].values| >= 2
  }

  /** The values a query already holds for `k`. */
  function Prior(q: Query, k: string): seq<string>
  {
    if k in q then Values(q[k]) else []
  }

  /** One piece keeps `Multi` at two values or more. */
  lemma StepWellFormed(q: Query, piece: string)
    requires WellFormed(q)
    ensures WellFormed(Step(q, piece))
  {
    var (k0, v0) := KeyValue(piece);
    var q1 := Step(q, piece);
    forall k | k in q1 && q1[k].Multi? ensures |q1[k].values| >= 2 {
      if k == k0 {
        assert |Values(q1[k])| >= 2;
      }
    }
  }

  /** One piece appends its value to its own key ... */
  lemma StepPriorSame(q: Query, piece: string, k: string)
    requires k == KeyValue(piece).0
    ensures Prior(Step(q, piece), k) == Prior(q, k) + [KeyValue(piece).1]
  {
  }

  /** ... and leaves every other key as it was. */
  lemma StepPriorOther(q: Query, piece: string, k: string)
    requires k != KeyValue(piece).0
    ensures Prior(Step(q, piece), k) == Prior(q, k)
  {
  }

  lemma StepPrior(q: Query, piece: string, k: string)
    ensures Prior(Step(q, piece), k) == Prior(q, k) + (if KeyValue(piece).0 == k then [KeyValue(piece).1] else [])
  {
    if k == KeyValue(piece).0 {
      StepPriorSame(q, piece, k);
    } else {
      StepPriorOther(q, piece, k);
    }
  }

  lemma {:induction false} AddPiecesWellFormed(q: Query, pieces: seq<string>)
    requires WellFormed(q)
    ensures WellFormed(AddPieces(q, pieces))
    decreases |pieces|
  {
    if pieces != [] {
      StepWellFormed(q, pieces[0]);
      AddPiecesWellFormed(Step(q, pieces[0]), pieces[1..]);
    }
  }

  lemma {:induction false} AddPiecesCollects(q: Query, pieces: seq<string>, k: string)
    requires WellFormed(q)
    ensures k in AddPieces(q, pieces) <==> Prior(q, k) + ValuesOf(pieces, k) != []
    ensures k in AddPieces(q, pieces) ==> Values(AddPieces(q, pieces)[k]) == Prior(q, k) + ValuesOf(pieces, k)
    decreases |pieces|
  {
    if pieces != [] {
      StepWellFormed(q, pieces[0]);
      AddPiecesCollects(Step(q, pieces[0]), pieces[1..], k);
      StepPrior(q, pieces[0], k);
      var own := if KeyValue(pieces[0]).0 == k then [KeyValue(pieces[0]).1] else [];
      ConcatAssoc(Prior(q, k), own, ValuesOf(pieces[1..], k));
    }
  }

  /**
   * A key is present exactly when some piece names it; its values are
   * those of the pieces naming it, in order; it is `Single` exactly when
   * one piece names it. So there are as many entries as distinct keys.
   */
  lemma ParseCollects(s: string, k: string)
    ensures k in Parse(s) <==> s != [] && ValuesOf(Split(s, '&'), k) != []
    ensures k in Parse(s) ==> Values(Parse(s)[k]) == ValuesOf(Split(s, '&'), k)
    ensures k in Parse(s) ==> (Parse(s)[k].Single? <==> |ValuesOf(Split(s, '&'), k)| == 1)
  {
    if s != [] {
      AddPiecesCollects(map[], Split(s, '&'), k);
      AddPiecesWellFormed(map[], Split(s, '&'));
    }
  }

  /** Splitting at `&` and then at `=` recovers the pieces that were joined. */
  lemma PiecesRecovered(s: string)
    ensures Join(Split(s, '&'), '&') == s
    ensures forall i | 0 <= i < |Split(s, '&')| :: '&' !in Split(s, '&')[i]
  {
    JoinSplit(s, '&');
  }
}

/**
 * The header-block parser of the first-generation server: one field per
 * line, name and value split at the first `:` and trimmed, blank lines
 * skipped, a later field replacing an earlier one of the same name.
 */
module HeaderBlocks {
  import opened Wrappers
  import opened Texts

  /** The request error the parser reports. */
  datatype LegacyError = InvalidRequest

  type Headers = map<string, string>

  /** `char::is_whitespace`: the Unicode `White_Space` characters, the set `str::trim` strips. */
  predicate IsWhitespace(c: char)
  {
    var n := c as int;
    || (9 <= n <= 13) || n == 32 || n == 0x85 || n == 0xA0 || n == 0x1680
    || (0x2000 <= n <= 0x200A) || n == 0x2028 || n == 0x2029 || n == 0x202F || n == 0x205F || n == 0x3000
  }

  predicate IsBlank(s: string)
  {
    Trim(s, IsWhitespace) == []
  }

  /** A non-blank line: its trimmed name and value, or the error for a line without `:`. */
  function ParseLine(line: string): (r: Result<(string, string), LegacyError>)
    ensures r.Err? <==> ':' !in line
    ensures r.Ok? ==> exists k, v :: ':' !in k && line == k + ":" + v && r.value == (Trim(k, IsWhitespace), Trim(v, IsWhitespace))
  {
    match SplitOnce(line, ':')
    case None => Err(InvalidRequest)
    case Some((k, v)) => Ok((Trim(k, IsWhitespace), Trim(v, IsWhitespace)))
  }

  function InsertLines(m: Headers, lines: seq<string>): Result<Headers, LegacyError>
    decreases |lines|
  {
    if lines == [] then Ok(m)
    else if IsBlank(lines[0]) then InsertLines(m, lines[1..])
    else match ParseLine(lines[0])
      case Err(e) => Err(e)
      case Ok((k, v)) => InsertLines(m[k := v], lines[1..])
  }

  /** `Headers::try_from`. */
  function Parse(s: string): (r: Result<Headers, LegacyError>)
    ensures IsBlank(s) ==> r == Ok(map[])
  {
    if IsBlank(s) then Ok(map[]) else InsertLines(map[], Lines(s, '\n', '\r'))
  }

  /** `Headers::get`: exact, case-sensitive lookup. */
  function Get(h: Headers, key: string): (r: Option<string>)
    ensures r.Some? <==> key in h
  {
    if key in h then Some(h[key]) else None
  }

  /** A line that is neither blank nor has a `:`. */
  predicate Malformed(line: string)
  {
    !IsBlank(line) && ':' !in line
  }

  predicate HasMalformed(lines: seq<string>)
  {
    exists i | 0 <= i < |lines| :: Malformed(lines[i])
  }

  /** The value of the last well-formed line whose trimmed name is `k`. */
  function LastValue(lines: seq<string>, k: string): Option<string>
    decreases |lines|
  {
    if lines == [] then None
    else
      var later := LastValue(lines[1..], k);
      if later.Some? then later
      else if !IsBlank(lines[0]) && ParseLine(lines[0]).Ok? && ParseLine(lines[0]).value.0 == k then Some(ParseLine(lines[0]).value.1)
      else None
  }

  lemma {:induction false} InsertLinesFails(m: Headers, lines: seq<string>)
    ensures InsertLines(m, lines).Err? <==> HasMalformed(lines)
    decreases |lines|
  {
    if lines != [] {
      var rest := lines[1..];
      var m1 := if IsBlank(lines[0]) || ParseLine(lines[0]).Err? then m else m[ParseLine(lines[0]).value.0 := ParseLine(lines[0]).value.1];
      InsertLinesFails(m1, rest);
      if Malformed(lines[0]) {
        assert InsertLines(m, lines).Err?;
      } else {
        assert InsertLines(m, lines) == InsertLines(m1, rest);
        if HasMalformed(lines) {
          var i :| 0 <= i < |lines| && Malformed(lines[i]);
          assert i > 0 && Malformed(rest[i - 1]);
        }
        if HasMalformed(rest) {
          var j :| 0 <= j < |rest| && Malformed(rest[j]);
          assert Malformed(lines[j + 1]);
        }
      }
    }
  }

  lemma {:induction false} InsertLinesLookup(m: Headers, lines: seq<string>, k: string)
    requires InsertLines(m, lines).Ok?
    ensures Get(InsertLines(m, lines).value, k) == (if LastValue(lines, k).Some? then LastValue(lines, k) else Get(m, k))
    decreases |lines|
  {
    if lines != [] {
      var later := LastValue(lines[1..], k);
      if IsBlank(lines[0]) {
        assert InsertLines(m, lines) == InsertLines(m, lines[1..]);
        InsertLinesLookup(m, lines[1..], k);
      } else {
        var (k0, v0) := ParseLine(lines[0]).value;
        assert InsertLines(m, lines) == InsertLines(m[k0 := v0], lines[1..]);
        InsertLinesLookup(m[k0 := v0], lines[1..], k);
        assert LastValue(lines, k) == if later.Some? then later else if k0 == k then Some(v0) else None;
      }
    }
  }

  /**
   * A block fails exactly when one of its lines is neither blank nor has a
   * `:`; otherwise a name maps to the value of its last line, and a name on
   * no line is absent.
   */
  lemma ParseOutcome(s: string, k: string)
    requires !IsBlank(s)
    ensures var lines := Lines(s, '\n', '\r');
            && (Parse(s).Err? <==> HasMalformed(lines))
            && (Parse(s).Ok? ==> Get(Parse(s).value, k) == LastValue(lines, k))
  {
    var lines := Lines(s, '\n', '\r');
    assert Parse(s) == InsertLines(map[], lines);
    InsertLinesFails(map[], lines);
    if Parse(s).Ok? {
      InsertLinesLookup(map[], lines, k);
    }
  }

  /** A line splits at its first `:`, so the value may hold more of them. */
  lemma FirstColonSplits(name: string, value: string)
    requires ':' !in name
    ensures ParseLine(name + ":" + value) == Ok((Trim(name, IsWhitespace), Trim(value, IsWhitespace)))
  {
    LineEndAt(name, ":" + value, ':');
    assert name + ":" + value == name + (":" + value);
    assert (name + ":" + value)[..|name|] == name;
    assert (name + ":" + value)[|name| + 1..] == value;
  }
}
