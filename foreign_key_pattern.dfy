/** The fallback foreign-key scanner of `get_relations`: the one fixed
    pattern `foreign_key_re`, matched by hand at a position, the leftmost
    search from a position (`re.search(text, pos)`), and the loop that
    collects every match of a `SHOW CREATE TABLE` definition, resuming at the
    end of the previous match. */
module ForeignKeyPattern {

  datatype Option<T> = None | Some(value: T)

  /** What a foreign-key clause yields: the local column, the referenced
      table and the referenced column (the pattern's three groups). */
  datatype Constraint = Constraint(column: string, refTable: string, refColumn: string)

  /** `\s` in a byte-string pattern compiled without the UNICODE flag:
      space, tab, newline, carriage return, vertical tab and form feed. */
  predicate IsSpace(c: char)
  {
    c == ' ' || c == '\t' || c == '\n' || c == '\r' || c == '\U{0B}' || c == '\U{0C}'
  }

  /** Text that `[^`]*` can consume entirely. */
  predicate Tickless(t: string)
  {
    '`' !in t
  }

  // The literal parts of `foreign_key_re`, in order. The pattern is one
  // whitespace character, `OpenName`, then four `[^`]*` fields, each closed
  // by the next literal of `Closers`: the constraint's name (not
  // captured), then the three groups.
  const OpenName := "CONSTRAINT `"
  const NameToColumn := "` FOREIGN KEY (`"
  const ColumnToTable := "`) REFERENCES `"
  const TableToColumn := "` (`"
  const CloseClause := "`)"
  const Closers := [NameToColumn, ColumnToTable, TableToColumn, CloseClause]

  /** Each field followed by its closing literal. */
  function FieldsText(fs: seq<string>, lits: seq<string>): string
    requires |fs| == |lits|
    decreases |lits|
  {
    if lits == [] then [] else fs[0] + (lits[0] + FieldsText(fs[1..], lits[1..]))
  }

  /** The four fields of a clause, in the pattern's order. */
  function FieldsOf(name: string, c: Constraint): seq<string>
  {
    [name, c.column, c.refTable, c.refColumn]
  }

  /** The clause `foreign_key_re` matches after its whitespace, with the
      four fields filled in:
      CONSTRAINT `name` FOREIGN KEY (`column`) REFERENCES `refTable` (`refColumn`) */
  function ClauseBody(name: string, c: Constraint): string
  {
    OpenName + FieldsText(FieldsOf(name, c), Closers)
  }

  /** The whole text `foreign_key_re` matches: one whitespace character
      `space`, then the clause. */
  function Clause(space: char, name: string, c: Constraint): string
  {
    [space] + ClauseBody(name, c)
  }

  /** `s` holds the text `t` at position `i`. */
  predicate At(s: string, i: nat, t: string)
  {
    i + |t| <= |s| && s[i..i + |t|] == t
  }

  /** The position of the first backtick at or after `i`, or `|s|`. */
  function NextTick(s: string, i: nat): (j: nat)
    requires i <= |s|
    ensures i <= j <= |s|
    decreases |s| - i
  {
    if i == |s| || s[i] == '`' then i else NextTick(s, i + 1)
  }

  /** `[^`]*` followed by the literal `t`, at position `i`: the field's text
      and the position after `t`. Since every `t` here opens with a
      backtick, which the field cannot consume, the greedy field can only
      end at the next backtick; backtracking to a shorter field never
      succeeds. */
  function FieldThen(s: string, i: nat, t: string): (r: Option<(string, nat)>)
    requires i <= |s|
    ensures r.Some? ==> i <= r.value.1 <= |s|
  {
    var j := NextTick(s, i);
    if At(s, j, t) then Some((s[i..j], j + |t|)) else None
  }

  /** The fields closed by `lits`, read one after the other from `p`: their
      texts and the position after the last literal. */
  function ReadFields(s: string, p: nat, lits: seq<string>): (r: Option<(seq<string>, nat)>)
    requires p <= |s|
    ensures r.Some? ==> |r.value.0| == |lits| && p <= r.value.1 <= |s|
    decreases |lits|
  {
    if lits == [] then Some(([], p))
    else
      match FieldThen(s, p, lits[0])
      case None => None
      case Some((f, q)) =>
        match ReadFields(s, q, lits[1..])
        case None => None
        case Some((fs, e)) => Some(([f] + fs, e))
  }

  /** A match of `foreign_key_re`: the span `start..end`, the constraint's
      name and the three groups. */
  datatype Match = Match(start: nat, end: nat, name: string, constraint: Constraint)

  /** `m` is a match of `foreign_key_re` in `s`, in the regular-expression
      sense: its span is one whitespace character followed by the clause,
      and no field holds a backtick. */
  ghost predicate IsMatch(s: string, m: Match)
  {
    m.start < m.end <= |s| && IsSpace(s[m.start]) &&
    Tickless(m.name) && Tickless(m.constraint.column) &&
    Tickless(m.constraint.refTable) && Tickless(m.constraint.refColumn) &&
    s[m.start..m.end] == Clause(s[m.start], m.name, m.constraint)
  }

  /** The match of `foreign_key_re` that starts at position `i`, if any. */
  function MatchAt(s: string, i: nat): (r: Option<Match>)
    ensures r.Some? ==> r.value.start == i < r.value.end <= |s|
  {
    if i < |s| && IsSpace(s[i]) && At(s, i + 1, OpenName) then
      match ReadFields(s, i + 1 + |OpenName|, Closers)
      case None => None
      case Some((fs, e)) => Some(Match(i, e, fs[0], Constraint(fs[1], fs[2], fs[3])))
    else None
  }

  lemma AtConcat(s: string, i: nat, a: string, b: string)
    ensures At(s, i, a + b) <==> At(s, i, a) && At(s, i + |a|, b)
  {
    if i + |a| + |b| <= |s| {
      assert s[i..i + |a| + |b|] == s[i..i + |a|] + s[i + |a|..i + |a| + |b|];
      if At(s, i, a + b) {
        assert s[i..i + |a|] == (a + b)[..|a|] == a;
        assert s[i + |a|..i + |a| + |b|] == (a + b)[|a|..] == b;
      }
    }
  }

  /** `NextTick` stops at the first backtick: none before it, and one at
      it unless the text ends there. */
  lemma {:induction false} NextTickSound(s: string, i: nat)
    requires i <= |s|
    ensures Tickless(s[i..NextTick(s, i)])
    ensures NextTick(s, i) < |s| ==> s[NextTick(s, i)] == '`'
    decreases |s| - i
  {
    if i < |s| && s[i] != '`' {
      NextTickSound(s, i + 1);
      assert s[i..NextTick(s, i)] == [s[i]] + s[i + 1..NextTick(s, i)];
    }
  }

  /** A backtick after backtick-free text is the one `NextTick` finds. */
  lemma {:induction false} NextTickAt(s: string, i: nat, j: nat)
    requires i <= j < |s| && Tickless(s[i..j]) && s[j] == '`'
    ensures NextTick(s, i) == j
    decreases j - i
  {
    if i < j {
      assert s[i] == s[i..j][0];
      assert s[i + 1..j] == s[i..j][1..];
      NextTickAt(s, i + 1, j);
    }
  }

  /** What `FieldThen` reports is a backtick-free field followed by `t`. */
  lemma FieldThenSound(s: string, i: nat, t: string, rest: string)
    requires i <= |s| && FieldThen(s, i, t).Some?
    ensures var (f, e) := FieldThen(s, i, t).value;
      Tickless(f) && e == i + |f| + |t| &&
      (At(s, i, f + (t + rest)) <==> At(s, e, rest))
  {
    var (f, e) := FieldThen(s, i, t).value;
    NextTickSound(s, i);
    AtConcat(s, i, f, t + rest);
    AtConcat(s, i + |f|, t, rest);
  }

  /** A backtick-free field followed by a `t` that opens with a backtick is
      read back exactly by `FieldThen`. */
  lemma FieldThenComplete(s: string, i: nat, f: string, t: string, rest: string)
    requires Tickless(f) && |t| > 0 && t[0] == '`'
    requires At(s, i, f + (t + rest))
    ensures FieldThen(s, i, t) == Some((f, i + |f| + |t|))
    ensures At(s, i + |f| + |t|, rest)
  {
    AtConcat(s, i, f, t + rest);
    AtConcat(s, i + |f|, t, rest);
    assert s[i + |f|] == s[i + |f|..i + |f| + |t|][0];
    NextTickAt(s, i, i + |f|);
  }

  /** Every reading of `ReadFields` is backtick-free fields, each followed
      by its literal, standing at `p`. */
  lemma {:induction false} ReadFieldsSound(s: string, p: nat, lits: seq<string>)
    requires p <= |s| && ReadFields(s, p, lits).Some?
    ensures var (fs, e) := ReadFields(s, p, lits).value;
      (forall j :: 0 <= j < |fs| ==> Tickless(fs[j])) &&
      At(s, p, FieldsText(fs, lits)) && e == p + |FieldsText(fs, lits)|
    decreases |lits|
  {
    if lits != [] {
      var (f, q) := FieldThen(s, p, lits[0]).value;
      var (fs, e) := ReadFields(s, p, lits).value;
      var (rest, _) := ReadFields(s, q, lits[1..]).value;
      ReadFieldsSound(s, q, lits[1..]);
      assert fs[0] == f && fs[1..] == rest;
      FieldThenSound(s, p, lits[0], FieldsText(rest, lits[1..]));
    }
  }

  /** Reading the first field, then the rest. */
  lemma ReadFieldsCons(s: string, p: nat, lits: seq<string>, f: string, q: nat, fs: seq<string>, e: nat)
    requires p <= |s| && lits != []
    requires FieldThen(s, p, lits[0]) == Some((f, q))
    requires ReadFields(s, q, lits[1..]) == Some((fs, e))
    ensures ReadFields(s, p, lits) == Some(([f] + fs, e))
  {
  }

  /** Every field is free of backticks. */
  predicate AllTickless(fs: seq<string>)
  {
    forall j :: 0 <= j < |fs| ==> Tickless(fs[j])
  }

  /** Every literal opens with a backtick. */
  predicate TickLed(lits: seq<string>)
  {
    forall j :: 0 <= j < |lits| ==> |lits[j]| > 0 && lits[j][0] == '`'
  }

  /** The first field and its literal are read, and the remaining fields
      stand right after them. */
  lemma ReadFieldsFirst(s: string, p: nat, fs: seq<string>, lits: seq<string>) returns (q: nat)
    requires |fs| == |lits| && lits != [] && AllTickless(fs) && TickLed(lits)
    requires At(s, p, FieldsText(fs, lits))
    ensures FieldThen(s, p, lits[0]) == Some((fs[0], q))
    ensures q == p + |fs[0]| + |lits[0]|
    ensures At(s, q, FieldsText(fs[1..], lits[1..]))
    ensures AllTickless(fs[1..]) && TickLed(lits[1..])
    ensures p + |FieldsText(fs, lits)| == q + |FieldsText(fs[1..], lits[1..])|
  {
    var rest := FieldsText(fs[1..], lits[1..]);
    assert FieldsText(fs, lits) == fs[0] + (lits[0] + rest);
    FieldThenComplete(s, p, fs[0], lits[0], rest);
    q := p + |fs[0]| + |lits[0]|;
  }

  /** Backtick-free fields, each followed by a literal that opens with a
      backtick, are read back exactly by `ReadFields`. */
  lemma {:induction false} ReadFieldsComplete(s: string, p: nat, fs: seq<string>, lits: seq<string>)
    requires |fs| == |lits| && AllTickless(fs) && TickLed(lits)
    requires At(s, p, FieldsText(fs, lits))
    ensures ReadFields(s, p, lits) == Some((fs, p + |FieldsText(fs, lits)|))
    decreases |lits|
  {
    if lits != [] {
      var q := ReadFieldsFirst(s, p, fs, lits);
      ReadFieldsComplete(s, q, fs[1..], lits[1..]);
      ReadFieldsCons(s, p, lits, fs[0], q, fs[1..], q + |FieldsText(fs[1..], lits[1..])|);
      assert [fs[0]] + fs[1..] == fs;
    }
  }

  /** The span of `m` is its clause exactly when the clause's body stands
      right after the whitespace at `m.start`. */
  lemma ClauseAt(s: string, m: Match)
    requires m.start < m.end <= |s|
    requires m.end == m.start + 1 + |ClauseBody(m.name, m.constraint)|
    ensures s[m.start..m.end] == Clause(s[m.start], m.name, m.constraint) <==>
      At(s, m.start + 1, ClauseBody(m.name, m.constraint))
  {
    var body := ClauseBody(m.name, m.constraint);
    assert Clause(s[m.start], m.name, m.constraint) == [s[m.start]] + body;
    assert s[m.start..m.end] == [s[m.start]] + s[m.start + 1..m.end];
  }

  /** Every match `MatchAt` reports is a match of the pattern: the span is
      whitespace and the clause refilled with the captured groups, and no
      group holds a backtick. */
  lemma MatchAtSound(s: string, i: nat)
    requires i <= |s| && MatchAt(s, i).Some?
    ensures IsMatch(s, MatchAt(s, i).value)
  {
    var m := MatchAt(s, i).value;
    var p := i + 1 + |OpenName|;
    var (fs, e) := ReadFields(s, p, Closers).value;
    ReadFieldsSound(s, p, Closers);
    assert fs == FieldsOf(m.name, m.constraint);
    AtConcat(s, i + 1, OpenName, FieldsText(fs, Closers));
    ClauseAt(s, m);
  }

  /** Every match of the pattern is the one `MatchAt` reports at its start:
      the match at a position is unique, and parsing a printed clause gives
      back its fields. */
  lemma MatchAtComplete(s: string, m: Match)
    requires IsMatch(s, m)
    ensures MatchAt(s, m.start) == Some(m)
  {
    var fs := FieldsOf(m.name, m.constraint);
    ClauseAt(s, m);
    AtConcat(s, m.start + 1, OpenName, FieldsText(fs, Closers));
    ReadFieldsComplete(s, m.start + 1 + |OpenName|, fs, Closers);
  }

  /** A compiled pattern, given by its matcher at a position: whatever
      `re(s, i)` reports is a non-empty span of `s` starting at `i`. */
  ghost predicate Anchored(re: (string, nat) -> Option<Match>)
  {
    forall s: string, i: nat :: re(s, i).Some? ==>
      re(s, i).value.start == i < re(s, i).value.end <= |s|
  }

  /** A compiled pattern: an anchored matcher. */
  type Matcher = matchAt: (string, nat) -> Option<Match> | Anchored(matchAt)
    witness (s: string, i: nat) => None

  /** `foreign_key_re`. */
  const ForeignKeyRe: Matcher := MatchAt

  /** `pattern.search(s, pos)`: the leftmost match that starts at or after
      `pos`. */
  function Search(re: Matcher, s: string, pos: nat): (r: Option<Match>)
    requires pos <= |s|
    ensures r.Some? ==> pos <= r.value.start < r.value.end <= |s| && re(s, r.value.start) == r
    ensures r.Some? ==> forall k :: pos <= k < r.value.start ==> re(s, k).None?
    ensures r.None? ==> forall k :: pos <= k <= |s| ==> re(s, k).None?
    decreases |s| - pos
  {
    match re(s, pos)
    case Some(m) => Some(m)
    case None => if pos == |s| then None else Search(re, s, pos + 1)
  }

  /** The matches the `while True` loop of `get_relations` collects from
      `pos` on: search, resume at the end of the match, repeat until the
      search fails. */
  function Scan(re: Matcher, s: string, pos: nat): (ms: seq<Match>)
    requires pos <= |s|
    ensures forall j :: 0 <= j < |ms| ==> pos <= ms[j].start < ms[j].end <= |s|
    ensures forall j :: 0 <= j < |ms| ==> re(s, ms[j].start) == Some(ms[j])
    ensures forall j :: 0 < j < |ms| ==> ms[j - 1].end <= ms[j].start
    decreases |s| - pos
  {
    match Search(re, s, pos)
    case None => []
    case Some(m) =>
      var rest := Scan(re, s, m.end);
      assert forall j :: 0 < j < |rest| + 1 ==> ([m] + rest)[j] == rest[j - 1];
      [m] + rest
  }

  /** The groups of each match, in order. */
  function GroupsOf(ms: seq<Match>): (cs: seq<Constraint>)
    ensures |cs| == |ms|
    ensures forall j :: 0 <= j < |ms| ==> cs[j] == ms[j].constraint
  {
    seq(|ms|, j requires 0 <= j < |ms| => ms[j].constraint)
  }

  /** The constraints the fallback collects from one definition. */
  function ForeignKeysIn(definition: string): seq<Constraint>
  {
    GroupsOf(Scan(ForeignKeyRe, definition, 0))
  }

  lemma GroupsOfCons(m: Match, ms: seq<Match>)
    ensures GroupsOf([m] + ms) == [m.constraint] + GroupsOf(ms)
  {
  }

  /** One round of the loop: a failed search ends the scan, a match is
      followed by the scan from its end. */
  lemma ScanStep(re: Matcher, s: string, pos: nat)
    requires pos <= |s|
    ensures Search(re, s, pos).None? ==> GroupsOf(Scan(re, s, pos)) == []
    ensures Search(re, s, pos).Some? ==> (GroupsOf(Scan(re, s, pos)) ==
      [Search(re, s, pos).value.constraint] + GroupsOf(Scan(re, s, Search(re, s, pos).value.end)))
  {
    if Search(re, s, pos).Some? {
      GroupsOfCons(Search(re, s, pos).value, Scan(re, s, Search(re, s, pos).value.end));
    }
  }

  /** The `while True` loop of `get_relations` over one definition:
      search from `pos`, stop when nothing is found, otherwise resume at
      the end of the match and keep its groups. */
  method ScanDefinition(re: Matcher, definition: string) returns (found: seq<Constraint>)
    ensures found == GroupsOf(Scan(re, definition, 0))
  {
    found := [];
    var pos := 0;
    ghost var all := GroupsOf(Scan(re, definition, 0));
    while true
      invariant pos <= |definition|
      invariant found + GroupsOf(Scan(re, definition, pos)) == all
      decreases |definition| - pos
    {
      var hit := Search(re, definition, pos);
      ScanStep(re, definition, pos);
      if hit == None {
        assert found + [] == found;
        break;
      }
      assert found + [hit.value.constraint] + GroupsOf(Scan(re, definition, hit.value.end)) == all;
      pos := hit.value.end;
      found := found + [hit.value.constraint];
    }
  }

  /** No match is skipped: every position at or after `pos` where the
      pattern matches is the start of a collected match or lies inside
      one (a match overlapping an earlier one is not reported, as with
      `re.search` resumed at `match.end()`). */
  lemma {:induction false} ScanMissesNothing(re: Matcher, s: string, pos: nat, k: nat)
    requires pos <= k <= |s| && re(s, k).Some?
    ensures exists j :: 0 <= j < |Scan(re, s, pos)| && Scan(re, s, pos)[j].start <= k < Scan(re, s, pos)[j].end
    decreases |s| - pos
  {
    var ms := Scan(re, s, pos);
    var m := Search(re, s, pos).value;
    var rest := Scan(re, s, m.end);
    if k >= m.end {
      ScanMissesNothing(re, s, m.end, k);
      var j :| 0 <= j < |rest| && rest[j].start <= k < rest[j].end;
      assert ms[j + 1] == rest[j];
      assert 0 <= j + 1 < |ms| && ms[j + 1].start <= k < ms[j + 1].end;
    } else {
      assert ms[0] == m && m.start <= k;
      assert 0 < |ms| && ms[0].start <= k < ms[0].end;
    }
  }

  /** A foreign-key clause as `SHOW CREATE TABLE` prints it: the text of
      the definition that comes before it (the `CREATE TABLE` line, column
      and key lines, earlier clauses' separators), the whitespace in front
      of the clause, the constraint's name and its columns. */
  datatype ForeignKeyClause = ForeignKeyClause(before: string, space: char, name: string, constraint: Constraint)

  /** A clause the pattern can read back: whitespace in front and no
      backtick inside a name. */
  predicate Printable(k: ForeignKeyClause)
  {
    IsSpace(k.space) && Tickless(k.name) && Tickless(k.constraint.column) &&
    Tickless(k.constraint.refTable) && Tickless(k.constraint.refColumn)
  }

  /** Every clause can be printed. */
  predicate AllPrintable(ks: seq<ForeignKeyClause>)
  {
    forall j :: 0 <= j < |ks| ==> Printable(ks[j])
  }

  /** A table definition: each clause preceded by its text, then the text
      after the last clause. */
  function DefinitionText(ks: seq<ForeignKeyClause>, tail: string): string
  {
    if ks == [] then tail
    else ks[0].before + (Clause(ks[0].space, ks[0].name, ks[0].constraint) + DefinitionText(ks[1..], tail))
  }

  /** The pattern matches nowhere in `s` from `from` up to `to`. */
  ghost predicate NoMatchIn(re: Matcher, s: string, from: nat, to: nat)
  {
    forall k: nat :: from <= k < to ==> re(s, k).None?
  }

  /** In the definition standing at `pos` in `s`, no match of the pattern
      starts inside the text between the clauses or after the last one. */
  ghost predicate GapsQuiet(re: Matcher, s: string, pos: nat, ks: seq<ForeignKeyClause>, tail: string)
    decreases |ks|
  {
    if ks == [] then NoMatchIn(re, s, pos, pos + |tail|)
    else
      NoMatchIn(re, s, pos, pos + |ks[0].before|) &&
      GapsQuiet(re, s, pos + |ks[0].before| + |Clause(ks[0].space, ks[0].name, ks[0].constraint)|, ks[1..], tail)
  }

  /** `cs` are the constraints the clauses `ks` declare, in order. */
  predicate Declared(cs: seq<Constraint>, ks: seq<ForeignKeyClause>)
  {
    |cs| == |ks| && forall j :: 0 <= j < |ks| ==> cs[j] == ks[j].constraint
  }

  /** The clauses determine the constraints they declare. */
  lemma DeclaredUnique(a: seq<Constraint>, b: seq<Constraint>, ks: seq<ForeignKeyClause>)
    requires Declared(a, ks) && Declared(b, ks)
    ensures a == b
  {
  }

  /** The first clause's constraint followed by the rest's. */
  lemma DeclaredCons(cs: seq<Constraint>, ks: seq<ForeignKeyClause>)
    requires ks != [] && Declared(cs, ks[1..])
    ensures Declared([ks[0].constraint] + cs, ks)
  {
    forall j | 0 < j < |ks| ensures ([ks[0].constraint] + cs)[j] == ks[j].constraint {
      assert ks[1..][j - 1] == ks[j];
    }
  }

  /** The search skips a stretch where nothing matches. */
  lemma {:induction false} SearchSkips(re: Matcher, s: string, pos: nat, q: nat)
    requires pos <= q <= |s| && NoMatchIn(re, s, pos, q)
    ensures Search(re, s, pos) == Search(re, s, q)
    decreases q - pos
  {
    if pos < q {
      assert re(s, pos).None?;
      SearchSkips(re, s, pos + 1, q);
    }
  }

  /** A printed clause standing at `pos` is what the search from `pos`
      finds. */
  lemma ClauseFoundAt(s: string, pos: nat, k: ForeignKeyClause, end: nat)
    requires Printable(k) && end == pos + |Clause(k.space, k.name, k.constraint)|
    requires end <= |s| && s[pos..end] == Clause(k.space, k.name, k.constraint)
    ensures Search(ForeignKeyRe, s, pos) == Some(Match(pos, end, k.name, k.constraint))
  {
    var m := Match(pos, end, k.name, k.constraint);
    assert s[pos] == s[pos..end][0] == k.space;
    MatchAtComplete(s, m);
  }

  /** A text standing at `pos` that is `a` followed by `b`: `a` ends at
      `end` and `b` starts there. */
  lemma SplitAt<T>(s: seq<T>, pos: nat, a: seq<T>, b: seq<T>, end: nat)
    requires pos <= |s| && s[pos..] == a + b && end == pos + |a|
    ensures end <= |s| && s[pos..end] == a && s[end..] == b
  {
    assert s[pos..end] == s[pos..][..|a|];
    assert s[end..] == s[pos..][|a|..];
  }

  /** The first clause of a definition standing at `pos` is the next
      match, and the rest of the definition stands at its end. */
  lemma ScanFirstClause(s: string, pos: nat, ks: seq<ForeignKeyClause>, tail: string) returns (end: nat)
    requires pos <= |s| && s[pos..] == DefinitionText(ks, tail) && ks != [] && AllPrintable(ks)
    requires GapsQuiet(ForeignKeyRe, s, pos, ks, tail)
    ensures pos < end <= |s| && s[end..] == DefinitionText(ks[1..], tail) && AllPrintable(ks[1..])
    ensures GapsQuiet(ForeignKeyRe, s, end, ks[1..], tail)
    ensures GroupsOf(Scan(ForeignKeyRe, s, pos)) == [ks[0].constraint] + GroupsOf(Scan(ForeignKeyRe, s, end))
  {
    var k := ks[0];
    var clause := Clause(k.space, k.name, k.constraint);
    var start := pos + |k.before|;
    end := start + |clause|;
    SplitAt(s, pos, k.before, clause + DefinitionText(ks[1..], tail), start);
    SplitAt(s, start, clause, DefinitionText(ks[1..], tail), end);
    SearchSkips(ForeignKeyRe, s, pos, start);
    ClauseFoundAt(s, start, k, end);
    ScanStep(ForeignKeyRe, s, pos);
  }

  /** Nothing matches in the text after the last clause. */
  lemma ScanOfTail(s: string, pos: nat, tail: string)
    requires pos <= |s| && s[pos..] == tail && NoMatchIn(ForeignKeyRe, s, pos, pos + |tail|)
    ensures GroupsOf(Scan(ForeignKeyRe, s, pos)) == []
  {
    SearchSkips(ForeignKeyRe, s, pos, |s|);
    ScanStep(ForeignKeyRe, s, pos);
  }

  /** A definition standing at `pos` is scanned back exactly, one match
      per clause, in order. */
  lemma {:induction false} ScanOfDefinitionFrom(s: string, pos: nat, ks: seq<ForeignKeyClause>, tail: string)
    requires pos <= |s| && s[pos..] == DefinitionText(ks, tail)
    requires AllPrintable(ks) && GapsQuiet(ForeignKeyRe, s, pos, ks, tail)
    ensures Declared(GroupsOf(Scan(ForeignKeyRe, s, pos)), ks)
    decreases |ks|
  {
    if ks == [] {
      ScanOfTail(s, pos, tail);
    } else {
      var end := ScanFirstClause(s, pos, ks, tail);
      ScanOfDefinitionFrom(s, end, ks[1..], tail);
      DeclaredCons(GroupsOf(Scan(ForeignKeyRe, s, end)), ks);
    }
  }

  /** `t` contains `w` somewhere. */
  predicate Mentions(t: string, w: string)
  {
    exists k: nat :: k <= |t| && At(t, k, w)
  }

  /** The text between the clauses and after the last one never says
      `CONSTRAINT` followed by a space and a backtick, as the column and
      key lines of a definition do not. */
  predicate PlainGaps(ks: seq<ForeignKeyClause>, tail: string)
  {
    (forall j :: 0 <= j < |ks| ==> !Mentions(ks[j].before, OpenName)) && !Mentions(tail, OpenName)
  }

  /** The only whitespace in `OpenName` is the space before its backtick. */
  lemma OpenNameSpace(i: int)
    requires 0 <= i < |OpenName| && IsSpace(OpenName[i])
    ensures i == 10 && OpenName[i + 1] == '`'
  {
  }

  /** No match starts inside a text `g` that does not contain `OpenName`
      when what follows it is the end of `s` or a clause (whitespace, then
      `C`): a match would need `OpenName` inside `g` or across its end. */
  lemma GapQuiet(s: string, pos: nat, g: string, rest: string)
    requires pos <= |s| && s[pos..] == g + rest && !Mentions(g, OpenName)
    requires rest == [] || (2 <= |rest| && IsSpace(rest[0]) && rest[1] == 'C')
    ensures NoMatchIn(ForeignKeyRe, s, pos, pos + |g|)
  {
    var e := pos + |g|;
    forall k: nat | pos <= k < e ensures ForeignKeyRe(s, k).None? {
      assert ForeignKeyRe(s, k) == MatchAt(s, k);
      if MatchAt(s, k).Some? {
        assert At(s, k + 1, OpenName);
        if k + 1 + |OpenName| <= e {
          assert g[k - pos + 1..k - pos + 1 + |OpenName|] == s[k + 1..k + 1 + |OpenName|];
          assert At(g, k - pos + 1, OpenName);
          assert false;
        } else {
          var i := e - (k + 1);
          assert s[e] == s[pos..][|g|] == rest[0];
          assert s[e] == s[k + 1..k + 1 + |OpenName|][i] == OpenName[i];
          OpenNameSpace(i);
          assert false;
        }
      }
    }
  }

  /** A printed clause, whatever follows it, opens with whitespace and `C`. */
  lemma ClauseOpens(k: ForeignKeyClause, more: string)
    requires IsSpace(k.space)
    ensures 2 <= |Clause(k.space, k.name, k.constraint) + more|
    ensures IsSpace((Clause(k.space, k.name, k.constraint) + more)[0])
    ensures (Clause(k.space, k.name, k.constraint) + more)[1] == 'C'
  {
  }

  lemma PlainGapsTail(ks: seq<ForeignKeyClause>, tail: string)
    requires ks != [] && PlainGaps(ks, tail) && AllPrintable(ks)
    ensures PlainGaps(ks[1..], tail) && AllPrintable(ks[1..]) && IsSpace(ks[0].space)
  {
    assert forall j :: 0 <= j < |ks| - 1 ==> ks[1..][j] == ks[j + 1];
  }

  /** Text that never mentions `OpenName` between and after the clauses
      holds no match. */
  lemma {:induction false} PlainGapsQuiet(s: string, pos: nat, ks: seq<ForeignKeyClause>, tail: string)
    requires pos <= |s| && s[pos..] == DefinitionText(ks, tail)
    requires AllPrintable(ks) && PlainGaps(ks, tail)
    ensures GapsQuiet(ForeignKeyRe, s, pos, ks, tail)
    decreases |ks|
  {
    if ks == [] {
      assert s[pos..] == tail + [];
      GapQuiet(s, pos, tail, []);
    } else {
      var end := PlainGapsStep(s, pos, ks, tail);
      PlainGapsQuiet(s, end, ks[1..], tail);
    }
  }

  /** The text before the first clause holds no match, and the rest of
      the definition stands after the clause. */
  lemma PlainGapsStep(s: string, pos: nat, ks: seq<ForeignKeyClause>, tail: string) returns (end: nat)
    requires pos <= |s| && s[pos..] == DefinitionText(ks, tail) && ks != []
    requires AllPrintable(ks) && PlainGaps(ks, tail)
    ensures NoMatchIn(ForeignKeyRe, s, pos, pos + |ks[0].before|)
    ensures end == pos + |ks[0].before| + |Clause(ks[0].space, ks[0].name, ks[0].constraint)|
    ensures end <= |s| && s[end..] == DefinitionText(ks[1..], tail)
    ensures AllPrintable(ks[1..]) && PlainGaps(ks[1..], tail)
  {
    var k := ks[0];
    var clause := Clause(k.space, k.name, k.constraint);
    var more := DefinitionText(ks[1..], tail);
    var start := pos + |k.before|;
    end := start + |clause|;
    PlainGapsTail(ks, tail);
    ClauseOpens(k, more);
    GapQuiet(s, pos, k.before, clause + more);
    SplitAt(s, pos, k.before, clause + more, start);
    SplitAt(s, start, clause, more, end);
  }

  /** Scanning a table definition yields exactly the constraints of its
      foreign-key clauses, in order, whatever column and key lines stand
      between them, as long as those never say `CONSTRAINT` followed by a
      space and a backtick: the fallback reads back what the definition
      declares. */
  lemma ScanOfDefinition(s: string, ks: seq<ForeignKeyClause>, tail: string)
    requires s == DefinitionText(ks, tail)
    requires AllPrintable(ks) && PlainGaps(ks, tail)
    ensures Declared(GroupsOf(Scan(ForeignKeyRe, s, 0)), ks)
  {
    assert s[0..] == s;
    PlainGapsQuiet(s, 0, ks, tail);
    ScanOfDefinitionFrom(s, 0, ks, tail);
  }
}
