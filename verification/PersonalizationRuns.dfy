/** Personalization over every sequence of sequential calls, on any number of cards that are used in
    the field in between. */
module PersonalizationRuns {
  import opened ByteStrings
  import opened CardProfile
  import opened CardMachine
  import opened CardRuns
  import opened CardCounters
  import opened CardIssuance
  import opened Personalization

  datatype Card = Card(cfg: Config, state: CardState)

  /** The credentials, the rows, the cards by serial number, and for each row the serial of the card
      it was written for. */
  datatype System = System(credentials: map<int, Credential>, rows: seq<Row>, cards: map<int, Card>, serials: seq<int>)

  datatype Action =
    | Personalize(card: int, order: Order, today: int)
    | UseCard(card: int, event: Event)
    | ChangeStatus(tokenId: int, status: string)

  function Act(H: Hash, w: System, a: Action): System {
    match a
    case Personalize(card, order, today) =>
      if card !in w.cards then w
      else
        var out := PersonalizeOn(H, w.credentials, w.rows, w.cards[card].cfg, w.cards[card].state, order, today);
        System(w.credentials, out.rows, w.cards[card := Card(w.cards[card].cfg, out.card)],
               if out.answer.Ok? then w.serials + [card] else w.serials)
    case UseCard(card, event) =>
      if card !in w.cards then w
      else
        var c := w.cards[card];
        w.(cards := w.cards[card := Card(c.cfg, After(H, c.cfg, c.state, event).state)])
    case ChangeStatus(tokenId, status) =>
      if tokenId !in w.credentials then w
      else w.(credentials := w.credentials[tokenId := w.credentials[tokenId].(status := status)])
  }

  function ActAll(H: Hash, w: System, actions: seq<Action>): System
    decreases |actions|
  {
    if actions == [] then w else ActAll(H, Act(H, w, actions[0]), actions[1..])
  }

  /** The i-th row is about the object its card holds now and about its credential. */
  ghost predicate RowStands(H: Hash, w: System, i: nat)
    requires i < |w.rows| == |w.serials|
  {
    var row, serial := w.rows[i], w.serials[i];
    && serial in w.cards && w.cards[serial].state.cardObject.Some?
    && row.tokenId in w.credentials
    && Describes(H, row, w.cards[serial].state.cardObject.value, w.cards[serial].cfg, w.credentials[row.tokenId])
  }

  /** One row per credential, one row per card, and every row true of its card. */
  ghost predicate Consistent(H: Hash, w: System) {
    && |w.rows| == |w.serials|
    && (forall k :: k in w.cards ==> Sound(w.cards[k].state))
    && (forall i, j :: 0 <= i < j < |w.rows| ==> w.rows[i].tokenId != w.rows[j].tokenId)
    && (forall i, j :: 0 <= i < j < |w.rows| ==> w.serials[i] != w.serials[j])
    && (forall i :: 0 <= i < |w.rows| ==> RowStands(H, w, i))
  }

  lemma DescribesIgnoresStatus(H: Hash, row: Row, blob: Bytes, cfg: Config, c: Credential, status: string)
    requires Describes(H, row, blob, cfg, c)
    ensures Describes(H, row, blob, cfg, c.(status := status))
  {
  }

  lemma UseKeepsConsistent(H: Hash, w: System, card: int, e: Event)
    requires Consistent(H, w) && card in w.cards
    ensures Consistent(H, Act(H, w, UseCard(card, e)))
  {
    hide After, Describes, Sound;
    var w' := Act(H, w, UseCard(card, e));
    StepKeepsSound(H, w.cards[card].cfg, w.cards[card].state, e);
    StepKeepsObject(H, w.cards[card].cfg, w.cards[card].state, e);
    forall i | 0 <= i < |w'.rows| ensures RowStands(H, w', i) {
      assert RowStands(H, w, i);
    }
  }

  lemma StatusKeepsConsistent(H: Hash, w: System, tokenId: int, status: string)
    requires Consistent(H, w)
    ensures Consistent(H, Act(H, w, ChangeStatus(tokenId, status)))
  {
    hide Describes, Sound;
    var w' := Act(H, w, ChangeStatus(tokenId, status));
    forall i | 0 <= i < |w'.rows| ensures RowStands(H, w', i) {
      assert RowStands(H, w, i);
      var row, held := w.rows[i], w.cards[w.serials[i]];
      DescribesIgnoresStatus(H, row, held.state.cardObject.value, held.cfg, w.credentials[row.tokenId], status);
    }
  }

  lemma PersonalizeKeepsConsistent(H: Hash, w: System, card: int, order: Order, today: int)
    requires Consistent(H, w) && card in w.cards
    ensures var w' := Act(H, w, Personalize(card, order, today));
            && Consistent(H, w')
            && (w'.rows == w.rows || (|w'.rows| == |w.rows| + 1 && w'.rows[..|w.rows|] == w.rows))
  {
    hide PersonalizeOn, Describes, HasRow;
    var c := w.cards[card];
    var out := PersonalizeOn(H, w.credentials, w.rows, c.cfg, c.state, order, today);
    var w' := Act(H, w, Personalize(card, order, today));
    var n := |w.rows|;
    if out.answer.Err? {
      RefusalAddsNothing(H, w.credentials, w.rows, c.cfg, c.state, order, today);
      hide Sound;
      forall i | 0 <= i < n ensures RowStands(H, w', i) { assert RowStands(H, w, i); }
    } else {
      SuccessRecords(H, w.credentials, w.rows, c.cfg, c.state, order, today);
      NoRowYet(w.rows, order.tokenId);
      DescribesDecodes(H, out.answer.value.row, out.answer.value.cardObject, c.cfg, w.credentials[order.tokenId]);
      assert c.state.cardObject == None;
      forall i | 0 <= i < n ensures w.serials[i] != card { assert RowStands(H, w, i); }
      forall i | 0 <= i < |w'.rows| ensures RowStands(H, w', i) {
        if i < n { assert RowStands(H, w, i); }
      }
    }
  }

  lemma DescribesDecodes(H: Hash, row: Row, blob: Bytes, cfg: Config, c: Credential)
    requires Describes(H, row, blob, cfg, c)
    ensures Decoding(blob).Ok?
  {
  }

  lemma NoRowYet(rows: seq<Row>, tokenId: int)
    requires !HasRow(rows, tokenId)
    ensures forall i :: 0 <= i < |rows| ==> rows[i].tokenId != tokenId
  {
  }

  lemma ActKeepsConsistent(H: Hash, w: System, a: Action)
    requires Consistent(H, w)
    ensures Consistent(H, Act(H, w, a)) && w.rows <= Act(H, w, a).rows
  {
    hide Consistent, PersonalizeOn, After;
    match a
    case Personalize(card, order, today) => if card in w.cards { PersonalizeKeepsConsistent(H, w, card, order, today); }
    case UseCard(card, e) => if card in w.cards { UseKeepsConsistent(H, w, card, e); }
    case ChangeStatus(tokenId, status) => StatusKeepsConsistent(H, w, tokenId, status);
  }

  lemma {:induction false} RunKeepsConsistent(H: Hash, w: System, actions: seq<Action>)
    requires Consistent(H, w)
    ensures Consistent(H, ActAll(H, w, actions)) && w.rows <= ActAll(H, w, actions).rows
    decreases |actions|
  {
    hide Consistent, Act;
    if actions != [] {
      ActKeepsConsistent(H, w, actions[0]);
      RunKeepsConsistent(H, Act(H, w, actions[0]), actions[1..]);
    }
  }

  lemma {:induction false} ActAllSplits(H: Hash, w: System, actions: seq<Action>, i: nat)
    requires i <= |actions|
    ensures ActAll(H, w, actions) == ActAll(H, ActAll(H, w, actions[..i]), actions[i..])
    decreases |actions|
  {
    hide Act;
    if i == 0 {
      assert actions[0..] == actions;
    } else {
      ActAllSplits(H, Act(H, w, actions[0]), actions[1..], i - 1);
      assert actions[..i][1..] == actions[1..][..i - 1] && actions[1..][i - 1..] == actions[i..];
    }
  }

  /** A system before its first call: any credentials, any cards as they are made, no rows. */
  predicate New(w: System) {
    && w.rows == [] && w.serials == []
    && (forall k :: k in w.cards ==> w.cards[k].state == Made(w.cards[k].state.cardObject))
    && (forall k :: k in w.cards && w.cards[k].state.cardObject.Some? ==> Decoding(w.cards[k].state.cardObject.value).Ok?)
  }

  lemma NewIsConsistent(H: Hash, w: System)
    requires New(w)
    ensures Consistent(H, w)
  {
    hide Decoding;
  }

  /** From the first call on, over any sequence of calls, uses of the cards and changes of status: no
      credential has two rows, no card backs two, every row describes the object its card holds now, and
      no row that was there at any earlier point is gone or changed. */
  lemma EveryRowStands(H: Hash, w: System, actions: seq<Action>, i: nat)
    requires New(w) && i <= |actions|
    ensures Consistent(H, ActAll(H, w, actions))
    ensures ActAll(H, w, actions[..i]).rows <= ActAll(H, w, actions).rows
  {
    hide Consistent, ActAll;
    NewIsConsistent(H, w);
    RunKeepsConsistent(H, w, actions);
    RunKeepsConsistent(H, w, actions[..i]);
    RunKeepsConsistent(H, ActAll(H, w, actions[..i]), actions[i..]);
    ActAllSplits(H, w, actions, i);
  }

  /** The step that wrote a row: a call for the row's credential, which stood and had none. */
  ghost predicate Earned(H: Hash, w: System, actions: seq<Action>, k: nat, row: Row)
    requires k < |actions|
  {
    && actions[k].Personalize?
    && var before, id := ActAll(H, w, actions[..k]), row.tokenId;
       && actions[k].order.tokenId == id && actions[k].card in before.cards && id in before.credentials
       && before.credentials[id].status == "ACTIVE"
       && (before.credentials[id].expiration == None || actions[k].today <= before.credentials[id].expiration.value)
       && (forall i :: 0 <= i < |before.rows| ==> before.rows[i].tokenId != id)
       && ActAll(H, w, actions[..k + 1]).rows == before.rows + [row]
  }

  lemma ActEarns(H: Hash, w: System, a: Action)
    ensures var w' := Act(H, w, a);
            || w'.rows == w.rows
            || (&& a.Personalize? && a.card in w.cards && a.order.tokenId in w.credentials
                && Stands(w.credentials[a.order.tokenId], a.today)
                && (forall i :: 0 <= i < |w.rows| ==> w.rows[i].tokenId != a.order.tokenId)
                && |w'.rows| == |w.rows| + 1 && w'.rows[|w.rows|].tokenId == a.order.tokenId && w'.rows == w.rows + [w'.rows[|w.rows|]])
  {
    hide PersonalizeOn, After, Stands;
    if a.Personalize? && a.card in w.cards {
      var c := w.cards[a.card];
      RowsUnlessOk(H, w.credentials, w.rows, c.cfg, c.state, a.order, a.today);
      if PersonalizeOn(H, w.credentials, w.rows, c.cfg, c.state, a.order, a.today).answer.Ok? {
        SuccessRecords(H, w.credentials, w.rows, c.cfg, c.state, a.order, a.today);
        SucceedsIff(H, w.credentials, w.rows, c.cfg, c.state, a.order, a.today);
      }
    }
  }

  lemma RowsUnlessOk(H: Hash, credentials: map<int, Credential>, rows: seq<Row>, cfg: Config, s: CardState, o: Order, today: int)
    ensures PersonalizeOn(H, credentials, rows, cfg, s, o, today).answer.Err? ==>
              PersonalizeOn(H, credentials, rows, cfg, s, o, today).rows == rows
  {
    hide Step, BuildCard, Authentic, IsOk, CredentialRefusal;
  }

  /** Every row was written while its credential stood: by a call for that credential, at a time when it was
      ACTIVE, not past its last day, and without a row. */
  lemma {:induction false} EveryRowWasEarned(H: Hash, w: System, actions: seq<Action>, i: nat)
    requires |w.rows| <= i < |ActAll(H, w, actions).rows|
    ensures exists k :: 0 <= k < |actions| && Earned(H, w, actions, k, ActAll(H, w, actions).rows[i])
    decreases |actions|
  {
    hide Act, ActAll, Earned;
    if actions == [] {
      NothingDone(H, w);
    } else {
      var n := |actions| - 1;
      var t, a := ActAll(H, w, actions[..n]), actions[n];
      LastAct(H, w, actions);
      ActEarns(H, t, a);
      var row := ActAll(H, w, actions).rows[i];
      if i < |t.rows| {
        EveryRowWasEarned(H, w, actions[..n], i);
        var k :| 0 <= k < n && Earned(H, w, actions[..n], k, t.rows[i]);
        EarnedEarlier(H, w, actions, n, k, row);
      } else {
        LastEarned(H, w, actions, row);
      }
    }
  }

  lemma NothingDone(H: Hash, w: System)
    ensures ActAll(H, w, []) == w
  {
  }

  lemma LastAct(H: Hash, w: System, actions: seq<Action>)
    requires actions != []
    ensures var n := |actions| - 1; ActAll(H, w, actions) == Act(H, ActAll(H, w, actions[..n]), actions[n])
  {
    hide Act;
    var n := |actions| - 1;
    ActAllSplits(H, w, actions, n);
    assert actions[n..] == [actions[n]];
    var t := ActAll(H, w, actions[..n]);
    assert [actions[n]][1..] == [];
    NothingDone(H, Act(H, t, actions[n]));
  }

  lemma EarnedEarlier(H: Hash, w: System, actions: seq<Action>, n: nat, k: nat, row: Row)
    requires k < n <= |actions| && Earned(H, w, actions[..n], k, row)
    ensures Earned(H, w, actions, k, row)
  {
    hide ActAll;
    assert actions[..n][..k] == actions[..k] && actions[..n][..k + 1] == actions[..k + 1];
  }

  lemma LastEarned(H: Hash, w: System, actions: seq<Action>, row: Row)
    requires actions != []
    requires var n := |actions| - 1;
             var t, a := ActAll(H, w, actions[..n]), actions[n];
             && a.Personalize? && a.card in t.cards && a.order.tokenId in t.credentials
             && Stands(t.credentials[a.order.tokenId], a.today)
             && (forall i :: 0 <= i < |t.rows| ==> t.rows[i].tokenId != a.order.tokenId)
             && row.tokenId == a.order.tokenId && ActAll(H, w, actions).rows == t.rows + [row]
    ensures Earned(H, w, actions, |actions| - 1, row)
  {
    hide ActAll;
    assert actions[..|actions|] == actions;
  }

  // ------------------------------------------------------------------
  // The authority's half of the duress mechanism
  // ------------------------------------------------------------------

  datatype KeyCheck = KeyCheck(f: Bytes -> bool)

  predicate Accepts(k: KeyCheck, key: Bytes) {
    k.f(key)
  }

  /** Which slot signed, by the one row of the credential; both keys are tried. */
  function SlotForPresentation(rows: seq<Row>, tokenId: int, check: KeyCheck): Option<Slot> {
    if !HasRow(rows, tokenId) then None
    else
      var row := FirstRow(rows, tokenId);
      var normalOk, duressOk := Accepts(check, row.normalKey), Accepts(check, row.duressKey);
      if duressOk then Some(Duress) else if normalOk then Some(Normal) else None
  }

  function FirstRow(rows: seq<Row>, tokenId: int): Row
    requires HasRow(rows, tokenId)
  {
    if rows[0].tokenId == tokenId then rows[0]
    else
      var i :| 0 <= i < |rows| && rows[i].tokenId == tokenId;
      assert rows[1..][i - 1].tokenId == tokenId;
      FirstRow(rows[1..], tokenId)
  }

  lemma {:induction false} FirstRowIsTheRow(rows: seq<Row>, i: nat)
    requires i < |rows| && forall j, k :: 0 <= j < k < |rows| ==> rows[j].tokenId != rows[k].tokenId
    ensures HasRow(rows, rows[i].tokenId) && FirstRow(rows, rows[i].tokenId) == rows[i]
    decreases |rows|
  {
    if i > 0 {
      FirstRowIsTheRow(rows[1..], i - 1);
    }
  }

  /** What the authority answers for any credential, by any check of the presentation's signature against
      one key: the duress slot if the signature checks under the duress key of the credential's row, the
      normal one if only under the normal key, and nothing exactly when there is no row or neither key
      fits. */
  lemma AuthorityAnswers(H: Hash, w: System, tokenId: int, check: KeyCheck)
    requires Consistent(H, w)
    ensures SlotForPresentation(w.rows, tokenId, check) == Some(Duress)
            <==> exists i :: 0 <= i < |w.rows| && w.rows[i].tokenId == tokenId && Accepts(check, w.rows[i].duressKey)
    ensures SlotForPresentation(w.rows, tokenId, check) == Some(Normal)
            <==> exists i :: 0 <= i < |w.rows| && w.rows[i].tokenId == tokenId
                             && Accepts(check, w.rows[i].normalKey) && !Accepts(check, w.rows[i].duressKey)
    ensures SlotForPresentation(w.rows, tokenId, check) == None
            <==> forall i :: 0 <= i < |w.rows| && w.rows[i].tokenId == tokenId ==>
                   !Accepts(check, w.rows[i].normalKey) && !Accepts(check, w.rows[i].duressKey)
  {
    hide RowStands, Sound, Accepts, FirstRow;
    if HasRow(w.rows, tokenId) {
      var i :| 0 <= i < |w.rows| && w.rows[i].tokenId == tokenId;
      FirstRowIsTheRow(w.rows, i);
    }
  }

  /** So the authority names the slot of every recorded card: if a signature checks under exactly the
      public key of the slot that made it, the slot it names is that one; and if it checks under no key
      of the card, it names none. */
  lemma AuthorityNamesSlot(H: Hash, w: System, i: nat, made: Option<Slot>, check: KeyCheck)
    requires Consistent(H, w) && i < |w.rows|
    requires RowStands(H, w, i)
    requires var g := w.cards[w.serials[i]].cfg.generator;
             g.Some? ==> forall slot :: Accepts(check, Generated(g.value, slot)) <==> made == Some(slot)
    ensures SlotForPresentation(w.rows, w.rows[i].tokenId, check) == made
  {
    hide Decoding, Lookup, CredentialReference, Sound, Generated, HasRow, FirstRow;
    FirstRowIsTheRow(w.rows, i);
    var g := w.cards[w.serials[i]].cfg.generator.value;
    assert Accepts(check, Generated(g, Normal)) <==> made == Some(Normal);
    assert Accepts(check, Generated(g, Duress)) <==> made == Some(Duress);
    assert made.Some? ==> made.value == Normal || made.value == Duress;
  }
}
