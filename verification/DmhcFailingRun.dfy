/** A run in which the self-check of the multi-hash cache ends the process, although no record of the
    run contains another one, for all tables that give the records certain indexes. */
module DmhcFailingRun {
  import opened Wrappers
  import opened RiscvIsa
  import opened DmhcSpec
  import opened DmhcTheorems
  import opened DmhcMixed
  import opened DmhcSelfCheck
  import opened DmhcAssertion
  import opened DmhcTwoTables

  // ---- the records ----

  const R1 := Operands(1, 1, 2, 0, 0, 1)
  const R2 := Operands(1, 1, 3, 1, 0, 0)
  const R3 := Operands(1, 3, 2, 0, 2, 3)
  const R4 := Operands(1, 2, 1, 0, 0, 1)
  const R5 := Operands(1, 2, 1, 0, 3, 3)
  const R6 := Operands(1, 2, 0, 2, 1, 0)
  const R7 := Operands(1, 2, 1, 2, 0, 3)

  const SEVEN := [R1, R2, R3, R4, R5, R6, R7]

  /** The seven records, and then the first one again. */
  const FAILING_RUN := [R1, R2, R3, R4, R5, R6, R7, R1]

  /** What is left of the first record once it is stored with the mask of the sixth. */
  const TRUNCATED := Operands(1, 1, 0, 0, 0, 0)

  /** The indexes of the records, of the truncated one and of the blank one. */
  ghost predicate RunIndexes(cfg: Config)
    requires TwoTables(cfg)
  {
    && IndexesAre(cfg, R1, 10, 0)
    && IndexesAre(cfg, R2, 11, 7)
    && IndexesAre(cfg, R3, 11, 2)
    && IndexesAre(cfg, R4, 0, 3)
    && IndexesAre(cfg, R5, 13, 1)
    && IndexesAre(cfg, R6, 6, 0)
    && IndexesAre(cfg, R7, 10, 3)
    && IndexesAre(cfg, TRUNCATED, 9, 5)
    && IndexesAre(cfg, ZERO_OPERANDS, 0, 0)
  }

  /** No record contains another one. */
  lemma SevenIncomparable(i: nat, j: nat)
    requires i < 7 && j < 7 && i != j
    ensures !Extends(SEVEN[i], SEVEN[j])
  {}

  // ---- the first six insertions ----

  lemma Stored1(cfg: Config, masks: seq<Mask>, res: Results)
    requires TwoTables(cfg) && RunIndexes(cfg) && |masks| == 8
    ensures Slots(cfg, masks, FAILING_RUN, res, 1,
                  BLANK[10 := (1, 1)],
                  BLANK[0 := (1, 1)])
    ensures RoomyUpTo(cfg, masks, FAILING_RUN, res, 1)
  {
    StoreAt(cfg, masks, FAILING_RUN, res, 0, 10, 0,
            BLANK,
            BLANK, (1, 1), (1, 1));
  }

  lemma Stored2(cfg: Config, masks: seq<Mask>, res: Results)
    requires TwoTables(cfg) && RunIndexes(cfg) && |masks| == 8
    ensures Slots(cfg, masks, FAILING_RUN, res, 2,
                  BLANK[10 := (1, 1)][11 := (1, 2)],
                  BLANK[0 := (1, 1)][7 := (1, 2)])
    ensures RoomyUpTo(cfg, masks, FAILING_RUN, res, 2)
  {
    Stored1(cfg, masks, res);
    StoreAt(cfg, masks, FAILING_RUN, res, 1, 11, 7,
            BLANK[10 := (1, 1)],
            BLANK[0 := (1, 1)], (1, 2), (1, 2));
  }

  lemma Stored3(cfg: Config, masks: seq<Mask>, res: Results)
    requires TwoTables(cfg) && RunIndexes(cfg) && |masks| == 8
    ensures Slots(cfg, masks, FAILING_RUN, res, 3,
                  BLANK[10 := (1, 1)][11 := (1, 2)][11 := (2, 3)],
                  BLANK[0 := (1, 1)][7 := (1, 2)][2 := (1, 3)])
    ensures RoomyUpTo(cfg, masks, FAILING_RUN, res, 3)
  {
    Stored2(cfg, masks, res);
    StoreAt(cfg, masks, FAILING_RUN, res, 2, 11, 2,
            BLANK[10 := (1, 1)][11 := (1, 2)],
            BLANK[0 := (1, 1)][7 := (1, 2)], (2, 3), (1, 3));
  }

  lemma Stored4(cfg: Config, masks: seq<Mask>, res: Results)
    requires TwoTables(cfg) && RunIndexes(cfg) && |masks| == 8
    ensures Slots(cfg, masks, FAILING_RUN, res, 4,
                  BLANK[10 := (1, 1)][11 := (1, 2)][11 := (2, 3)][0 := (1, 4)],
                  BLANK[0 := (1, 1)][7 := (1, 2)][2 := (1, 3)][3 := (1, 4)])
    ensures RoomyUpTo(cfg, masks, FAILING_RUN, res, 4)
  {
    Stored3(cfg, masks, res);
    StoreAt(cfg, masks, FAILING_RUN, res, 3, 0, 3,
            BLANK[10 := (1, 1)][11 := (1, 2)][11 := (2, 3)],
            BLANK[0 := (1, 1)][7 := (1, 2)][2 := (1, 3)], (1, 4), (1, 4));
  }

  lemma Stored5(cfg: Config, masks: seq<Mask>, res: Results)
    requires TwoTables(cfg) && RunIndexes(cfg) && |masks| == 8
    ensures Slots(cfg, masks, FAILING_RUN, res, 5,
                  BLANK[10 := (1, 1)][11 := (1, 2)][11 := (2, 3)][0 := (1, 4)][13 := (1, 5)],
                  BLANK[0 := (1, 1)][7 := (1, 2)][2 := (1, 3)][3 := (1, 4)][1 := (1, 5)])
    ensures RoomyUpTo(cfg, masks, FAILING_RUN, res, 5)
  {
    Stored4(cfg, masks, res);
    StoreAt(cfg, masks, FAILING_RUN, res, 4, 13, 1,
            BLANK[10 := (1, 1)][11 := (1, 2)][11 := (2, 3)][0 := (1, 4)],
            BLANK[0 := (1, 1)][7 := (1, 2)][2 := (1, 3)][3 := (1, 4)], (1, 5), (1, 5));
  }

  lemma Stored6(cfg: Config, masks: seq<Mask>, res: Results)
    requires TwoTables(cfg) && RunIndexes(cfg) && |masks| == 8
    ensures Slots(cfg, masks, FAILING_RUN, res, 6,
                  BLANK[10 := (1, 1)][11 := (1, 2)][11 := (2, 3)][0 := (1, 4)][13 := (1, 5)][6 := (1, 6)],
                  BLANK[0 := (1, 1)][7 := (1, 2)][2 := (1, 3)][3 := (1, 4)][1 := (1, 5)][0 := (2, 6)])
    ensures RoomyUpTo(cfg, masks, FAILING_RUN, res, 6)
  {
    Stored5(cfg, masks, res);
    StoreAt(cfg, masks, FAILING_RUN, res, 5, 6, 0,
            BLANK[10 := (1, 1)][11 := (1, 2)][11 := (2, 3)][0 := (1, 4)][13 := (1, 5)],
            BLANK[0 := (1, 1)][7 := (1, 2)][2 := (1, 3)][3 := (1, 4)][1 := (1, 5)], (1, 6), (2, 6));
  }

  // ---- the seventh and the eighth insertion ----

  /** Entries 2 to 5 keep the second to the fifth record. */
  predicate Kept(m: seq<Entry>) {
    |m| == 8 && !m[0].used && m[2].key == R2 && m[3].key == R3 && m[4].key == R4 && m[5].key == R5
  }

  ghost predicate BeforeSeventh(v: View, res: Results) {
    && Sized(v) && v.next == 7 && Kept(v.m)
    && v.first[0] == (1, 4) && v.first[10] == (1, 1) && v.first[6] == (1, 6)
    && v.second[0] == (2, 6) && v.second[3] == (1, 4)
    && v.m[1] == Entry(true, R1, res, MaskOf(R1)) && v.m[6] == Entry(true, R6, res, MaskOf(R6))
    && !v.m[7].used && v.m[7].key == ZERO_OPERANDS
  }

  ghost predicate BetweenHops(v: View, res: Results) {
    && Sized(v) && v.next == 1 && Kept(v.m)
    && v.first[0] == (1, 4) && v.first[10] == (1, 7) && v.first[6] == (1, 6) && v.second[0] == (1, 6)
    && v.m[1] == Entry(false, ZERO_OPERANDS, ZERO_RESULTS, MaskOf(R1)) && v.m[6] == Entry(true, R6, res, MaskOf(R6))
    && v.m[7].key == R7
  }

  ghost predicate AfterSeventh(v: View, res: Results) {
    && Sized(v) && v.next == 1 && Kept(v.m)
    && v.first[0] == (1, 4) && v.first[10] == (2, 1) && v.second[0] == (1, 1)
    && v.m[1] == Entry(true, TRUNCATED, res, MaskOf(R6))
    && !v.m[6].used && v.m[7].key == R7
  }

  /** Entry 7 is blank, so recycling it changes nothing in the tables. */
  lemma SeventhVacated(cfg: Config, st: State, res: Results)
    requires Shaped(cfg, st) && BeforeSeventh(ViewOf(cfg, st), res)
    ensures ViewOf(cfg, Vacate(cfg, st)) == ViewOf(cfg, st).(next := 1)
  {
    var st0 := Vacate(cfg, st);
    assert UsesOf(cfg, st0, 0) == UsesOf(cfg, st, 0) && UsesOf(cfg, st0, 1) == UsesOf(cfg, st, 1);
  }

  /** Both slots are taken, and the first one has the smaller count. */
  lemma SeventhEvicts(cfg: Config, st0: State, res: Results)
    requires Shaped(cfg, st0) && RunIndexes(cfg) && BeforeSeventh(ViewOf(cfg, st0).(next := 7), res)
    ensures var victim := Some(Victim(1, R1, res, MaskOf(R1)));
            Prepare(cfg, st0, R7, None) == Prepared(Placed(Evict(cfg, st0, 1, None), victim), 0)
    ensures var room := ViewOf(cfg, Evict(cfg, st0, 1, None));
            && Sized(room) && room.next == st0.next && Kept(room.m)
            && room.first[0] == (1, 4) && room.first[10] == (0, 0) && room.first[6] == (1, 6)
            && room.second[0] == (1, 6) && room.m[6] == Entry(true, R6, res, MaskOf(R6))
            && room.m[1] == Entry(false, ZERO_OPERANDS, ZERO_RESULTS, MaskOf(R1))
            && room.m[7] == st0.m[7]
    ensures PlaceAsserts(cfg, st0, R7, None)
  {
    TwoSlots(cfg, st0, R7, None);
    EvictView(cfg, st0, 1, None);
    TwoSlots(cfg, Evict(cfg, st0, 1, None), R7, None);
  }

  /** Hop 0 of the seventh insertion evicts the first record. */
  lemma SeventhFirstHop(cfg: Config, st: State, res: Results)
    requires Shaped(cfg, st) && RunIndexes(cfg) && BeforeSeventh(ViewOf(cfg, st), res)
    ensures FirstVictim(cfg, st, R7) == Some(Victim(1, R1, res, MaskOf(R1)))
    ensures BetweenHops(ViewOf(cfg, AfterFirstHop(cfg, st, R7, res)), res)
    ensures PlaceAsserts(cfg, Vacate(cfg, st), R7, None)
  {
    var st0 := Vacate(cfg, st);
    SeventhVacated(cfg, st, res);
    SeventhEvicts(cfg, st0, res);
    RealInsertView(cfg, Evict(cfg, st0, 1, None), 7, R7, res, 0, MaskOf(R7));
    assert Merge(MaskOf(R7), ZERO_OPERANDS, R7) == R7;
  }

  /** Hop 1 evicts the sixth record, and re-homes the first one under the sixth one's mask. */
  lemma SeventhSecondHop(cfg: Config, st: State, res: Results)
    requires Shaped(cfg, st) && RunIndexes(cfg) && BetweenHops(ViewOf(cfg, st), res)
    ensures var guard := Some(Hashes(cfg, R7));
            && Prepare(cfg, st, R1, guard).room.victim == Some(Victim(6, R6, res, MaskOf(R6)))
            && AfterSeventh(ViewOf(cfg, Place(cfg, st, 1, R1, res, MaskOf(R1), guard).st), res)
            && PlaceAsserts(cfg, st, R1, guard)
  {
    var guard := Some(Hashes(cfg, R7));
    TwoSlots(cfg, st, R7, None);
    TwoSlots(cfg, st, R1, guard);
    EvictView(cfg, st, 6, guard);
    var room := Evict(cfg, st, 6, guard);
    TwoSlots(cfg, room, R1, guard);
    assert Prepare(cfg, st, R1, guard) == Prepared(Placed(room, Some(Victim(6, R6, res, MaskOf(R6)))), 1);
    RealInsertView(cfg, room, 1, R1, res, 1, MaskOf(R6));
    assert Merge(MaskOf(R6), ZERO_OPERANDS, R1) == TRUNCATED;
  }

  lemma Seventh(cfg: Config, st: State, res: Results)
    requires Shaped(cfg, st) && RunIndexes(cfg) && BeforeSeventh(ViewOf(cfg, st), res)
    ensures AfterSeventh(ViewOf(cfg, Insert(cfg, st, R7, res, MaskOf(R7))), res)
    ensures Fits(cfg, st, R7, res)
  {
    SeventhFirstHop(cfg, st, res);
    SeventhSecondHop(cfg, AfterFirstHop(cfg, st, R7, res), res);
    InsertIs(cfg, st, R7, res);
    PlaceIsFirstHop(cfg, st, R7, res);
    InsertAssertsIff(cfg, st, R7, res, MaskOf(R7));
  }

  /** Both hops of an insertion, in the terms of `FirstVictim` and `AfterFirstHop`. */
  lemma PlaceIsFirstHop(cfg: Config, st: State, ops: Operands, res: Results)
    requires ValidConfig(cfg) && WellFormed(cfg, st)
    ensures InsertAsserts(cfg, st, ops, res, MaskOf(ops))
            <==> && PlaceAsserts(cfg, Vacate(cfg, st), ops, None)
                 && (FirstVictim(cfg, st, ops).Some? ==>
                       PlaceAsserts(cfg, AfterFirstHop(cfg, st, ops, res), FirstVictim(cfg, st, ops).value.key,
                                    Some(Hashes(cfg, ops))))
  {
    assert !Guarded(None, Hashes(cfg, ops), 0);
  }

  /** No live entry matches the first record. */
  lemma EighthMisses(cfg: Config, st: State, res: Results)
    requires Shaped(cfg, st) && RunIndexes(cfg) && AfterSeventh(ViewOf(cfg, st), res)
    ensures Lookup(cfg, st, R1, MaskOf(R1)) == None
  {
    forall a | 0 <= a < 8 && st.m[a].used ensures !Matches(MaskOf(R1), st.m[a].key, R1) {
      assert a == 1 || a == 2 || a == 3 || a == 4 || a == 5 || a == 7;
    }
  }

  /** The slots of the first record still name entry 1, but its stored key no longer leads to them: recycling
      entry 1 does not clear them, and the insertion evicts the entry it has recycled. */
  lemma Eighth(cfg: Config, st: State, res: Results)
    requires Shaped(cfg, st) && RunIndexes(cfg) && AfterSeventh(ViewOf(cfg, st), res)
    ensures EvictsItself(cfg, st, R1, res)
  {
    EighthVacated(cfg, st, res);
    TwoSlots(cfg, Vacate(cfg, st), R1, None);
  }

  lemma EighthVacated(cfg: Config, st: State, res: Results)
    requires Shaped(cfg, st) && RunIndexes(cfg) && AfterSeventh(ViewOf(cfg, st), res)
    ensures var v := ViewOf(cfg, Vacate(cfg, st));
            && Sized(v) && v.next == 2 && !v.m[1].used
            && v.m[1] == Entry(false, ZERO_OPERANDS, ZERO_RESULTS, MaskOf(R6))
            && v.first[0] == (1, 4) && v.first[10] == (2, 1) && v.second[0] == (1, 1)
  {
    var next := st.(next := 2);
    assert UsesOf(cfg, next, 0) == UsesOf(cfg, st, 0) && UsesOf(cfg, next, 1) == UsesOf(cfg, st, 1);
    EvictView(cfg, next, 1, None);
    assert Vacate(cfg, st) == Evict(cfg, next, 1, None);
  }

  /** Evicting the blank entry 1 releases the slots of the blank record, so that both hops find an unused slot. */
  lemma EighthAsserts(cfg: Config, st: State, res: Results)
    requires Shaped(cfg, st) && RunIndexes(cfg) && AfterSeventh(ViewOf(cfg, st), res)
    ensures InsertAsserts(cfg, st, R1, res, MaskOf(R1))
  {
    var st0, guard := Vacate(cfg, st), Some(Hashes(cfg, R1));
    EighthVacated(cfg, st, res);
    EighthFirstHop(cfg, st0, res);
    PlaceIsFirstHop(cfg, st, R1, res);
    var st1 := AfterFirstHop(cfg, st, R1, res);
    EighthSecondHop(cfg, st1);
  }

  lemma EighthFirstHop(cfg: Config, st0: State, res: Results)
    requires Shaped(cfg, st0) && RunIndexes(cfg) && st0.next == 2
    requires var v := ViewOf(cfg, st0);
             && v.m[1] == Entry(false, ZERO_OPERANDS, ZERO_RESULTS, MaskOf(R6))
             && v.first[0] == (1, 4) && v.first[10] == (2, 1) && v.second[0] == (1, 1)
    ensures PlaceAsserts(cfg, st0, R1, None)
    ensures Prepare(cfg, st0, R1, None).room.victim == Some(Victim(1, ZERO_OPERANDS, ZERO_RESULTS, MaskOf(R6)))
    ensures var v := ViewOf(cfg, Place(cfg, st0, 1, R1, res, MaskOf(R1), None).st);
            Sized(v) && v.first[0].0 == 0
  {
    TwoSlots(cfg, st0, R1, None);
    EvictView(cfg, st0, 1, None);
    var room := Evict(cfg, st0, 1, None);
    TwoSlots(cfg, room, R1, None);
    assert Prepare(cfg, st0, R1, None).room.st == room;
    RealInsertView(cfg, room, 1, R1, res, 1, MaskOf(R1));
  }

  lemma EighthSecondHop(cfg: Config, st: State)
    requires Shaped(cfg, st) && RunIndexes(cfg)
    requires ViewOf(cfg, st).first[0].0 == 0
    ensures PlaceAsserts(cfg, st, ZERO_OPERANDS, Some(Hashes(cfg, R1)))
  {
    TwoSlots(cfg, st, ZERO_OPERANDS, Some(Hashes(cfg, R1)));
  }

  // ---- the run ----

  lemma SlotsAfterSixth(cfg: Config, masks: seq<Mask>, res: Results)
    requires TwoTables(cfg) && RunIndexes(cfg) && |masks| == 8
    ensures var v := ViewAfter(cfg, masks, FAILING_RUN, res, 6);
            && v.first[0] == (1, 4) && v.first[10] == (1, 1) && v.first[6] == (1, 6)
            && v.second[0] == (2, 6) && v.second[3] == (1, 4)
  {
    Stored6(cfg, masks, res);
  }

  lemma EntriesAfterSixth(cfg: Config, masks: seq<Mask>, res: Results)
    requires TwoTables(cfg) && |masks| == 8
    ensures var m := ViewAfter(cfg, masks, FAILING_RUN, res, 6).m;
            && Kept(m) && m[1] == Entry(true, R1, res, MaskOf(R1)) && m[6] == Entry(true, R6, res, MaskOf(R6))
            && !m[7].used && m[7].key == ZERO_OPERANDS
  {
    OtherEntryBlank(cfg, masks, FAILING_RUN, res, 6, 0);
    OtherEntryBlank(cfg, masks, FAILING_RUN, res, 6, 7);
    EntryStored(cfg, masks, FAILING_RUN, res, 6, 1, R1);
    EntryStored(cfg, masks, FAILING_RUN, res, 6, 2, R2);
    EntryStored(cfg, masks, FAILING_RUN, res, 6, 3, R3);
    EntryStored(cfg, masks, FAILING_RUN, res, 6, 4, R4);
    EntryStored(cfg, masks, FAILING_RUN, res, 6, 5, R5);
    EntryStored(cfg, masks, FAILING_RUN, res, 6, 6, R6);
  }

  lemma FirstSix(cfg: Config, masks: seq<Mask>, res: Results)
    requires TwoTables(cfg) && RunIndexes(cfg) && |masks| == 8
    ensures BeforeSeventh(ViewOf(cfg, StateAfter(cfg, masks, FAILING_RUN, res, 6)), res)
    ensures NoExit(cfg, masks, FAILING_RUN, res, 6)
  {
    Stored6(cfg, masks, res);
    FreeRun(cfg, masks, FAILING_RUN, res, 6);
    SlotsAfterSixth(cfg, masks, res);
    EntriesAfterSixth(cfg, masks, res);
  }

  lemma FirstSeven(cfg: Config, masks: seq<Mask>, res: Results)
    requires TwoTables(cfg) && RunIndexes(cfg) && |masks| == 8
    ensures AfterSeventh(ViewOf(cfg, StateAfter(cfg, masks, FAILING_RUN, res, 7)), res)
    ensures NoExit(cfg, masks, FAILING_RUN, res, 7)
  {
    FirstSix(cfg, masks, res);
    Seventh(cfg, StateAfter(cfg, masks, FAILING_RUN, res, 6), res);
    NextState(cfg, masks, FAILING_RUN, res, 6);
    FitsExits0(cfg, masks, FAILING_RUN, res, 6);
    OneMoreLives(cfg, masks, FAILING_RUN, res, 6);
  }

  lemma FailsAtEighth(cfg: Config, masks: seq<Mask>, res: Results)
    requires TwoTables(cfg) && RunIndexes(cfg) && |masks| == 8
    ensures ExitAt(cfg, masks, FAILING_RUN, res, 7) == 1
  {
    var st := StateAfter(cfg, masks, FAILING_RUN, res, 7);
    FirstSeven(cfg, masks, res);
    Eighth(cfg, st, res);
    EighthAsserts(cfg, st, res);
    CheckAtIff(cfg, masks, FAILING_RUN, res, 7);
  }

  lemma AllMissed(cfg: Config, masks: seq<Mask>, res: Results, n: nat)
    requires TwoTables(cfg) && RunIndexes(cfg) && |masks| == 8 && n < 8
    ensures MissesAt(cfg, masks, FAILING_RUN, res, n)
  {
    FirstSeven(cfg, masks, res);
    if n < 7 {
      LivesBefore(cfg, masks, FAILING_RUN, res, n, 7);
      forall i | 0 <= i < n ensures !Extends(FAILING_RUN[i], FAILING_RUN[n]) {
        assert FAILING_RUN[i] == SEVEN[i] && FAILING_RUN[n] == SEVEN[n];
        SevenIncomparable(i, n);
      }
      NotBlank(n);
      NewIsMissed(cfg, masks, FAILING_RUN, res, n);
    } else {
      EighthMisses(cfg, StateAfter(cfg, masks, FAILING_RUN, res, 7), res);
    }
  }

  lemma NotBlank(n: nat)
    requires n < 8
    ensures FAILING_RUN[n] != ZERO_OPERANDS
  {}

  /** A run of the wrapper over records none of which contains another one, each missed before it is installed,
      in which the first seven installations succeed and the self-check of the eighth ends the process. */
  lemma IncomparableRunFails(cfg: Config, masks: seq<Mask>, res: Results)
    requires TwoTables(cfg) && RunIndexes(cfg) && |masks| == 8
    ensures EndsWith(cfg, masks, FAILING_RUN, res, 1)
    ensures forall i, j | 0 <= i < 7 && 0 <= j < 7 && i != j :: !Extends(SEVEN[i], SEVEN[j])
  {
    FirstSeven(cfg, masks, res);
    FailsAtEighth(cfg, masks, res);
    forall n | 0 <= n < 8 ensures MissesAt(cfg, masks, FAILING_RUN, res, n) { AllMissed(cfg, masks, res, n); }
    forall i, j | 0 <= i < 7 && 0 <= j < 7 && i != j ensures !Extends(SEVEN[i], SEVEN[j]) { SevenIncomparable(i, j); }
  }
}
