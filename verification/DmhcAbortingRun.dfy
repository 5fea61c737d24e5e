/** A run over records with the same operands in which the assertion that the chosen slot is unused ends the
    process, for all tables that give the records certain indexes. */
module DmhcAbortingRun {
  import opened Wrappers
  import opened RiscvIsa
  import opened DmhcSpec
  import opened DmhcMixed
  import opened DmhcAssertion
  import opened DmhcTwoTables

  const A1 := Operands(1, 1, 1, 1, 0, 0)
  const A2 := Operands(1, 2, 1, 2, 0, 0)
  const A3 := Operands(1, 2, 2, 1, 0, 0)
  const A4 := Operands(1, 3, 1, 3, 0, 0)

  const ABORTING_RUN := [A1, A2, A3, A4]

  ghost predicate AbortIndexes(cfg: Config)
    requires TwoTables(cfg)
  {
    && IndexesAre(cfg, A1, 9, 3)
    && IndexesAre(cfg, A2, 3, 3)
    && IndexesAre(cfg, A3, 3, 0)
    && IndexesAre(cfg, A4, 3, 3)
  }

  lemma SameMask(n: nat)
    requires n < 4
    ensures MaskOf(ABORTING_RUN[n]) == MaskOf(A1)
  {}

  lemma AllDifferent(i: nat, j: nat)
    requires i < 4 && j < 4 && i != j
    ensures !Extends(ABORTING_RUN[i], ABORTING_RUN[j])
  {}

  // ---- the first three insertions ----

  lemma Stored1(cfg: Config, masks: seq<Mask>, res: Results)
    requires TwoTables(cfg) && AbortIndexes(cfg) && |masks| == 8
    ensures Slots(cfg, masks, ABORTING_RUN, res, 1, BLANK[9 := (1, 1)], BLANK[3 := (1, 1)])
    ensures RoomyUpTo(cfg, masks, ABORTING_RUN, res, 1)
  {
    StoreAt(cfg, masks, ABORTING_RUN, res, 0, 9, 3, BLANK, BLANK, (1, 1), (1, 1));
  }

  lemma Stored2(cfg: Config, masks: seq<Mask>, res: Results)
    requires TwoTables(cfg) && AbortIndexes(cfg) && |masks| == 8
    ensures Slots(cfg, masks, ABORTING_RUN, res, 2, BLANK[9 := (1, 1)][3 := (1, 2)], BLANK[3 := (1, 1)][3 := (2, 2)])
    ensures RoomyUpTo(cfg, masks, ABORTING_RUN, res, 2)
  {
    Stored1(cfg, masks, res);
    StoreAt(cfg, masks, ABORTING_RUN, res, 1, 3, 3, BLANK[9 := (1, 1)], BLANK[3 := (1, 1)], (1, 2), (2, 2));
  }

  lemma Stored3(cfg: Config, masks: seq<Mask>, res: Results)
    requires TwoTables(cfg) && AbortIndexes(cfg) && |masks| == 8
    ensures Slots(cfg, masks, ABORTING_RUN, res, 3, BLANK[9 := (1, 1)][3 := (1, 2)][3 := (2, 3)],
                  BLANK[3 := (1, 1)][3 := (2, 2)][0 := (1, 3)])
    ensures RoomyUpTo(cfg, masks, ABORTING_RUN, res, 3)
  {
    Stored2(cfg, masks, res);
    StoreAt(cfg, masks, ABORTING_RUN, res, 2, 3, 0, BLANK[9 := (1, 1)][3 := (1, 2)],
            BLANK[3 := (1, 1)][3 := (2, 2)], (2, 3), (1, 3));
  }

  lemma SlotsAfterThird(cfg: Config, masks: seq<Mask>, res: Results)
    requires TwoTables(cfg) && AbortIndexes(cfg) && |masks| == 8
    ensures var v := ViewAfter(cfg, masks, ABORTING_RUN, res, 3);
            v.first[3] == (2, 3) && v.second[3] == (2, 2) && v.next == 4 && !v.m[4].used
  {
    Stored3(cfg, masks, res);
    OtherEntryBlank(cfg, masks, ABORTING_RUN, res, 3, 4);
  }

  // ---- the fourth insertion ----

  /** Both slots are counted twice, so whichever rule is evicted, neither becomes unused. */
  lemma FourthAborts(cfg: Config, st: State, res: Results)
    requires Shaped(cfg, st) && AbortIndexes(cfg)
    requires var v := ViewOf(cfg, st); v.first[3] == (2, 3) && v.second[3] == (2, 2) && v.next == 4 && !v.m[4].used
    ensures !InsertAsserts(cfg, st, A4, res, MaskOf(A4))
  {
    var st0 := Vacate(cfg, st);
    assert UsesOf(cfg, st0, 0) == UsesOf(cfg, st, 0) && UsesOf(cfg, st0, 1) == UsesOf(cfg, st, 1);
    TwoSlots(cfg, st0, A4, None);
    PlaceAssertsIff(cfg, st0, A4, None);
  }

  lemma FirstThree(cfg: Config, masks: seq<Mask>, res: Results)
    requires TwoTables(cfg) && AbortIndexes(cfg) && |masks| == 8
    ensures NoExit(cfg, masks, ABORTING_RUN, res, 3)
    ensures !InsertAsserts(cfg, StateAfter(cfg, masks, ABORTING_RUN, res, 3), A4, res, MaskOf(A4))
  {
    Stored3(cfg, masks, res);
    FreeRun(cfg, masks, ABORTING_RUN, res, 3);
    SlotsAfterThird(cfg, masks, res);
    FourthAborts(cfg, StateAfter(cfg, masks, ABORTING_RUN, res, 3), res);
  }

  lemma AllMissed(cfg: Config, masks: seq<Mask>, res: Results, n: nat)
    requires TwoTables(cfg) && AbortIndexes(cfg) && |masks| == 8 && n < 4
    ensures MissesAt(cfg, masks, ABORTING_RUN, res, n)
  {
    FirstThree(cfg, masks, res);
    LivesBefore(cfg, masks, ABORTING_RUN, res, n, 3);
    forall i | 0 <= i < n ensures !Extends(ABORTING_RUN[i], ABORTING_RUN[n]) { AllDifferent(i, n); }
    NewIsMissed(cfg, masks, ABORTING_RUN, res, n);
  }

  /** A run of the wrapper over four records with the same operands, each missed before it is installed, in which
      the first three installations succeed and the assertion aborts the fourth. */
  lemma OneMaskRunAborts(cfg: Config, masks: seq<Mask>, res: Results)
    requires TwoTables(cfg) && AbortIndexes(cfg) && |masks| == 8 && cfg.asserts
    ensures EndsWith(cfg, masks, ABORTING_RUN, res, ABORTED)
    ensures forall i | 0 <= i < 4 :: MaskOf(ABORTING_RUN[i]) == MaskOf(A1)
  {
    FirstThree(cfg, masks, res);
    forall n | 0 <= n < 4 ensures MissesAt(cfg, masks, ABORTING_RUN, res, n) { AllMissed(cfg, masks, res, n); }
    forall i | 0 <= i < 4 ensures MaskOf(ABORTING_RUN[i]) == MaskOf(A1) { SameMask(i); }
  }
}
