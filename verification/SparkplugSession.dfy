/** One Sparkplug session: its alias table, its birth sequence number and its gap signal. */
module SparkplugSession {
  import opened Bytes

  datatype Session = Session(aliases: map<nat, string>, bdSeq: Option<nat>, gapEmitted: bool, lastTouched: nat)

  const FRESH := Session(map[], None, false, 0)

  /** What happens to a session: the store touches it, its caller does the rest. */
  datatype Op =
    | Touch(now: nat)
    | Bind(alias: nat, name: string)
    | Birth(bdSeq: Option<nat>)
    | ClearAliases
    | Death
    | NoteGap

  predicate Supersedes(current: Option<nat>, offered: Option<nat>) {
    current.None? || offered.None? || offered.value >= current.value
  }

  function Do(s: Session, op: Op): Session {
    match op
    case Touch(now) => s.(lastTouched := now)
    case Bind(alias, name) => s.(aliases := s.aliases[alias := name])
    case Birth(b) => if Supersedes(s.bdSeq, b) then s.(bdSeq := b, gapEmitted := false) else s
    case ClearAliases => s.(aliases := map[])
    case Death => s.(aliases := map[])
    case NoteGap => s.(gapEmitted := true)
  }

  /** What the operation returns: whether a birth supersedes, whether the gap is signalled now. */
  predicate Says(s: Session, op: Op) {
    match op
    case Birth(b) => Supersedes(s.bdSeq, b)
    case NoteGap => !s.gapEmitted
    case _ => false
  }

  class SessionState {
    var aliases: map<nat, string>
    var bdSeq: Option<nat>
    var gapEmitted: bool
    var lastTouched: nat

    function Contents(): Session
      reads this
    { Session(aliases, bdSeq, gapEmitted, lastTouched) }

    constructor ()
      ensures Contents() == FRESH
    {
      aliases, bdSeq, gapEmitted, lastTouched := map[], None, false, 0;
    }

    /** The state a store holds by value, to be worked on. */
    constructor Of(s: Session)
      ensures Contents() == s
    {
      aliases, bdSeq, gapEmitted, lastTouched := s.aliases, s.bdSeq, s.gapEmitted, s.lastTouched;
    }

    method Resolve(alias: nat) returns (name: Option<string>)
      ensures name == if alias in aliases then Some(aliases[alias]) else None
    {
      name := if alias in aliases then Some(aliases[alias]) else None;
    }

    method BindAlias(alias: nat, name: string)
      modifies this
      ensures Contents() == Do(old(Contents()), Bind(alias, name))
    {
      aliases := aliases[alias := name];
    }

    method RecordBirth(offered: Option<nat>) returns (supersedes: bool)
      modifies this
      ensures Contents() == Do(old(Contents()), Birth(offered)) && supersedes == Says(old(Contents()), Birth(offered))
    {
      match (bdSeq, offered) {
        case (None, _) => supersedes := true;
        case (Some(_), None) => supersedes := true;
        case (Some(prev), Some(new_)) => supersedes := new_ >= prev;
      }
      if supersedes {
        bdSeq, gapEmitted := offered, false;
      }
    }

    method ForgetAliases()
      modifies this
      ensures Contents() == Do(old(Contents()), ClearAliases)
    {
      aliases := map[];
    }

    method RecordDeath()
      modifies this
      ensures Contents() == Do(old(Contents()), Death)
    {
      aliases := map[];
    }

    method NoteGapAnomalyIfFirst() returns (first: bool)
      modifies this
      ensures Contents() == Do(old(Contents()), NoteGap) && first == Says(old(Contents()), NoteGap)
    {
      if gapEmitted { return false; }
      gapEmitted := true;
      return true;
    }

    method TouchAt(now: nat)
      modifies this
      ensures Contents() == Do(old(Contents()), Touch(now))
    {
      lastTouched := now;
    }
  }

  // ======== Over any sequence of operations ========

  /** The session before operation `t`. */
  function Before(ops: seq<Op>, t: nat): Session
    requires t <= |ops|
  {
    if t == 0 then FRESH else Do(Before(ops, t - 1), ops[t - 1])
  }

  lemma {:induction false} BeforePrefix(ops: seq<Op>, more: seq<Op>, t: nat)
    requires t <= |ops|
    ensures Before(ops + more, t) == Before(ops, t)
  {
    if t > 0 {
      BeforePrefix(ops, more, t - 1);
      assert (ops + more)[t - 1] == ops[t - 1];
    }
  }

  predicate Superseding(ops: seq<Op>, t: nat)
    requires t < |ops|
  {
    ops[t].Birth? && Says(Before(ops, t), ops[t])
  }

  predicate Fires(ops: seq<Op>, t: nat)
    requires t < |ops|
  {
    ops[t].NoteGap? && Says(Before(ops, t), ops[t])
  }

  predicate Unbinds(op: Op, alias: nat) { op.ClearAliases? || op.Death? || (op.Bind? && op.alias == alias) }

  /** `alias` was bound to `name` before `t` and has not been touched since. */
  ghost predicate BoundTo(ops: seq<Op>, t: nat, alias: nat, name: string)
    requires t <= |ops|
  {
    exists i :: 0 <= i < t && ops[i] == Bind(alias, name) && forall k :: i < k < t ==> !Unbinds(ops[k], alias)
  }

  /** An alias resolves to a name exactly when some operation bound it to that name and no later one
      rebound it, cleared the aliases or ended the session; births alone keep the aliases. */
  lemma {:induction false} AliasIff(ops: seq<Op>, t: nat, alias: nat, name: string)
    requires t <= |ops|
    ensures var aliases := Before(ops, t).aliases;
            alias in aliases && aliases[alias] == name <==> BoundTo(ops, t, alias, name)
  {
    if t > 0 {
      AliasIff(ops, t - 1, alias, name);
      BoundNext(ops, t, alias, name);
    }
  }

  lemma BoundNext(ops: seq<Op>, t: nat, alias: nat, name: string)
    requires 0 < t <= |ops|
    ensures BoundTo(ops, t, alias, name)
            <==> ops[t - 1] == Bind(alias, name) || (!Unbinds(ops[t - 1], alias) && BoundTo(ops, t - 1, alias, name))
  {
    if BoundTo(ops, t - 1, alias, name) && !Unbinds(ops[t - 1], alias) {
      var i :| 0 <= i < t - 1 && ops[i] == Bind(alias, name) && forall k :: i < k < t - 1 ==> !Unbinds(ops[k], alias);
      assert forall k :: i < k < t ==> !Unbinds(ops[k], alias);
    }
  }

  /** A gap was noted after the last superseding birth before `t`. */
  ghost predicate GapOpen(ops: seq<Op>, t: nat)
    requires t <= |ops|
  {
    exists i :: 0 <= i < t && ops[i].NoteGap? && forall k :: i < k < t ==> !Superseding(ops, k)
  }

  lemma {:induction false} GapFlag(ops: seq<Op>, t: nat)
    requires t <= |ops|
    ensures Before(ops, t).gapEmitted <==> GapOpen(ops, t)
  {
    if t > 0 {
      GapFlag(ops, t - 1);
      var op := ops[t - 1];
      if GapOpen(ops, t - 1) && !Superseding(ops, t - 1) {
        var i :| 0 <= i < t - 1 && ops[i].NoteGap? && forall k :: i < k < t - 1 ==> !Superseding(ops, k);
        assert forall k :: i < k < t ==> !Superseding(ops, k);
      }
      assert op.NoteGap? ==> 0 <= t - 1 < t && ops[t - 1].NoteGap?;
      if GapOpen(ops, t) && !op.NoteGap? {
        var i :| 0 <= i < t && ops[i].NoteGap? && forall k :: i < k < t ==> !Superseding(ops, k);
        assert i < t - 1 && forall k :: i < k < t - 1 ==> !Superseding(ops, k);
      }
    }
  }

  /** The gap signal fires exactly on the first gap noted since the last superseding birth; so two
      firings always have a superseding birth between them. */
  lemma GapFiresOncePerEpoch(ops: seq<Op>, t: nat)
    requires t < |ops| && ops[t].NoteGap?
    ensures Fires(ops, t)
            <==> forall i :: 0 <= i < t && ops[i].NoteGap? ==> exists k :: i < k < t && Superseding(ops, k)
    ensures forall i :: 0 <= i < t && Fires(ops, i) && Fires(ops, t) ==> exists k :: i < k < t && Superseding(ops, k)
  {
    hide Superseding;
    GapFlag(ops, t);
  }

  /** A birth that does not supersede leaves the gap flag up: for every older number the second gap
      is not signalled, although a birth came between. */
  lemma OlderBirthKeepsGap(low: nat, high: nat)
    requires low < high
    ensures var ops := [Birth(Some(high)), NoteGap, Birth(Some(low)), NoteGap];
            Fires(ops, 1) && ops[2].Birth? && !Fires(ops, 3)
  {
    var ops := [Birth(Some(high)), NoteGap, Birth(Some(low)), NoteGap];
    assert Before(ops, 1) == FRESH.(bdSeq := Some(high));
    assert Before(ops, 2) == FRESH.(bdSeq := Some(high), gapEmitted := true);
    assert Before(ops, 3) == Before(ops, 2);
  }

  /** The sequence numbers offered since the last birth without one. */
  function Offered(ops: seq<Op>, t: nat): set<nat>
    requires t <= |ops|
  {
    if t == 0 then {}
    else match ops[t - 1]
         case Birth(None) => {}
         case Birth(Some(b)) => Offered(ops, t - 1) + {b}
         case _ => Offered(ops, t - 1)
  }

  ghost predicate NoneAbove(m: nat, s: set<nat>) {
    forall x :: x in s ==> x <= m
  }

  ghost predicate IsMax(m: Option<nat>, s: set<nat>) {
    if m.None? then s == {} else m.value in s && NoneAbove(m.value, s)
  }

  /** The remembered number is the largest offered since the last birth that carried none; so a birth
      supersedes exactly when its number is at least all of those. */
  lemma {:induction false} BdSeqIsMax(ops: seq<Op>, t: nat)
    requires t <= |ops|
    ensures IsMax(Before(ops, t).bdSeq, Offered(ops, t))
  {
    if t > 0 { BdSeqIsMax(ops, t - 1); }
  }

  lemma SupersedesIff(ops: seq<Op>, t: nat)
    requires t < |ops| && ops[t].Birth? && ops[t].bdSeq.Some?
    ensures Superseding(ops, t) <==> NoneAbove(ops[t].bdSeq.value, Offered(ops, t))
  {
    BdSeqIsMax(ops, t);
    var current, offered := Before(ops, t).bdSeq, Offered(ops, t);
    assert Superseding(ops, t) <==> current.None? || ops[t].bdSeq.value >= current.value;
    if current.Some? && !Superseding(ops, t) {
      var m: nat := current.value;
      assert m in offered && m > ops[t].bdSeq.value;
    }
  }

  /** So the accepted numbers never decrease, as long as no birth without a number comes between. */
  lemma {:induction false} OfferedStays(ops: seq<Op>, i: nat, t: nat)
    requires i < t <= |ops| && ops[i].Birth? && ops[i].bdSeq.Some?
    requires forall k :: i < k < t ==> ops[k] != Birth(None)
    ensures ops[i].bdSeq.value in Offered(ops, t)
    decreases t
  {
    if i < t - 1 {
      assert ops[t - 1] != Birth(None);
      OfferedStays(ops, i, t - 1);
    }
  }

  lemma BdSeqNeverDecreases(ops: seq<Op>, i: nat, j: nat)
    requires i < j < |ops| && Superseding(ops, i) && Superseding(ops, j)
    requires ops[i].bdSeq.Some? && ops[j].bdSeq.Some?
    requires forall k :: i < k < j ==> ops[k] != Birth(None)
    ensures ops[i].bdSeq.value <= ops[j].bdSeq.value
  {
    OfferedStays(ops, i, j);
    SupersedesIff(ops, j);
  }

  /** Without that condition they may: after a birth without a number, any number supersedes. */
  lemma BdSeqMayDecrease(high: nat, low: nat)
    requires low < high
    ensures var ops := [Birth(Some(high)), Birth(None), Birth(Some(low))];
            Superseding(ops, 0) && Superseding(ops, 1) && Superseding(ops, 2)
  {
    var ops := [Birth(Some(high)), Birth(None), Birth(Some(low))];
    assert Offered(ops, 2) == {};
    SupersedesIff(ops, 2);
  }
}
