/**
 * The commands of a batch, what the interface says of them, and what is saved to
 * undo them (bfclick/ip/iproutetable.hh, bfclick/ip/iproutetable.cc).
 */
module RouteCommands {
  import opened Prefixes
  import opened Results

  datatype Command = Add(p: Prefix, hop: Hop) | Set(p: Prefix, hop: Hop) | Remove(p: Prefix, hop: Hop) | Malformed

  /** A saved route; `kind` is what `extra` holds while it waits to be undone. */
  datatype Saved = Saved(kind: Kind, p: Prefix, hop: Hop)

  datatype Kind = CmdAdd | CmdSet | CmdRemove

  type Table = map<Prefix, Hop>

  /** `p` is routed, and by the hop asked for if one is. */
  ghost predicate Held(t: Table, p: Prefix, hop: Hop) {
    p in t && (hop.port < 0 || hop == t[p])
  }

  /** The interface's account of one command (iproutetable.hh:82-103). */
  ghost function Effect(t: Table, c: Command): Option<Table> {
    match c
    case Add(p, hop) => if p in t then None else Some(t[p := hop])
    case Set(p, hop) => Some(t[p := hop])
    case Remove(p, hop) => if Held(t, p, hop) then Some(t - {p}) else None
    case Malformed => None
  }

  /** What a command is answered with that fails, unless it is for want of memory. */
  ghost predicate Answered(t: Table, c: Command, status: Status) {
    match status
    case Exists => c.Add? && c.p in t
    case NoEntry => c.Remove? && !Held(t, c.p, c.hop)
    case Invalid => c.Malformed?
    case _ => true
  }

  ghost function Undone(t: Table, s: Saved): Table {
    if s.kind == CmdAdd then t - {s.p} else t[s.p := s.hop]
  }

  /** Undoing `s` takes `after` back to `before`. */
  ghost predicate Reverses(s: Saved, before: Table, after: Table) {
    && Undone(after, s) == before
    && (s.kind == CmdAdd ==> s.p in after && after[s.p] == s.hop)
    && (s.kind == CmdRemove ==> s.p !in after)
    && (s.kind == CmdSet ==> s.p in after)
  }

  /** The routes at some point of a batch, and the vports in use. */
  datatype Mark = Mark(t: Table, load: nat)

  /** The whole batch, or nothing. */
  ghost function Batch(t: Table, cs: seq<Command>): Option<Table>
    decreases |cs|
  {
    if cs == [] then Some(t)
    else match Effect(t, cs[0])
      case None => None
      case Some(t') => Batch(t', cs[1..])
  }

  lemma {:induction false} BatchPrefix(t: Table, cs: seq<Command>, k: nat, t': Table)
    requires k < |cs| && Batch(t, cs[..k]) == Some(t')
    ensures Batch(t, cs[..k + 1]) == Effect(t', cs[k])
    ensures Effect(t', cs[k]).None? ==> Batch(t, cs).None?
    decreases k
  {
    if k == 0 {
      assert cs[..1] == [cs[0]] && cs[..1][1..] == [];
    } else {
      var u := Effect(t, cs[0]).value;
      assert cs[..k][1..] == cs[1..][..k - 1] && cs[..k + 1][1..] == cs[1..][..k];
      BatchPrefix(u, cs[1..], k - 1, t');
    }
  }

  // ---- the lines of a batch

  /** A line is blank, or holds a command. */
  datatype Line = Blank | Full(command: Command)

  /** The handler is at a line, with these routes, or done. */
  datatype Reading = AtLine(k: nat, t: Table) | Over

  /** Lines 228-252, one turn: a blank line is not stepped over. */
  ghost function Turn(lines: seq<Line>, r: Reading): Reading {
    match r
    case Over => Over
    case AtLine(k, t) =>
      if k >= |lines| then Over
      else match lines[k]
        case Blank => r
        case Full(c) =>
          match Effect(t, c)
          case None => Over
          case Some(u) => AtLine(k + 1, u)
  }

  ghost function Turns(lines: seq<Line>, t: Table, n: nat): Reading {
    if n == 0 then AtLine(0, t) else Turn(lines, Turns(lines, t, n - 1))
  }

  /** A blank line comes before any command that fails. */
  ghost predicate BlankReached(lines: seq<Line>, t: Table)
    decreases |lines|
  {
    lines != [] && match lines[0]
      case Blank => true
      case Full(c) => match Effect(t, c) case None => false case Some(u) => BlankReached(lines[1..], u)
  }

  lemma {:induction false} StillReading(lines: seq<Line>, t: Table, n: nat)
    requires BlankReached(lines, t)
    ensures var r := Turns(lines, t, n); r.AtLine? && r.k <= |lines| && BlankReached(lines[r.k..], r.t)
  {
    if n > 0 {
      StillReading(lines, t, n - 1);
      var r := Turns(lines, t, n - 1);
      assert lines[r.k..][1..] == lines[r.k + 1..];
    }
  }

  lemma {:induction false} ReadsOn(lines: seq<Line>, t: Table, n: nat)
    requires var r := Turns(lines, t, n); r.AtLine? && r.k <= |lines| && !BlankReached(lines[r.k..], r.t)
    ensures exists m: nat :: Turns(lines, t, m).Over?
    decreases |lines| - Turns(lines, t, n).k
  {
    var r := Turns(lines, t, n);
    assert Turns(lines, t, n + 1) == Turn(lines, r);
    if Turns(lines, t, n + 1).AtLine? {
      assert lines[r.k..][1..] == lines[r.k + 1..];
      ReadsOn(lines, t, n + 1);
    }
  }

  /** In a table that can place every route, the handler is done exactly when no blank line is reached. */
  lemma HandlerEnds(lines: seq<Line>, t: Table)
    ensures (exists n: nat :: Turns(lines, t, n).Over?) <==> !BlankReached(lines, t)
  {
    if BlankReached(lines, t) {
      forall n: nat
        ensures !Turns(lines, t, n).Over?
      {
        StillReading(lines, t, n);
      }
    } else {
      assert lines[0..] == lines;
      ReadsOn(lines, t, 0);
    }
  }
}
