/** The pure part of the bump_version action's `run`: which build number is
    the latest one, what becomes of it, and which version is handed to
    `agvtool new-version -all`. The catalogue lookup, the external
    incrementer and the shell command are collaborators whose results come
    in as arguments. */
module BumpVersion {
  import opened Wrappers
  import opened RubyString
  import opened BuildOrder
  import opened BuildIncrement

  /** What the catalogue gave for the chosen version label. */
  datatype TrainLookup =
    /** There is no train for the label, so asking it for its builds raised. */
    | NoTrain
    /** The `build_version` of every build of the train, in catalogue order. */
    | Train(buildVersions: seq<String>)

  /** The ways the action stops without computing a version. */
  datatype ActionError =
    /** The user error raised when there is no train and no
        `initial_build_number`. */
    | NoBuildAndNoInitialBuildNumber
    /** An empty train leaves the latest build number nil, and splitting nil
        raises. */
    | NilBuildNumber

  /** The latest build number: the maximum of the train's build versions
      (None, Ruby's nil, for an empty train), or `initialBuildNumber` when
      there is no train, or the user error when that option is not set
      either. */
  function LatestBuildNumber(lookup: TrainLookup, initialBuildNumber: Option<String>)
    : (r: Result<Option<String>, ActionError>)
    ensures lookup.NoTrain? && initialBuildNumber.None? ==> r == Failure(NoBuildAndNoInitialBuildNumber)
    ensures lookup.NoTrain? && initialBuildNumber.Some? ==> r == Success(initialBuildNumber)
    ensures lookup.Train? ==> r.Success?
    ensures lookup.Train? ==> (r.value.None? <==> |lookup.buildVersions| == 0)
    ensures lookup.Train? && r.value.Some? ==> IsMaximal(AtMost, r.value.value, lookup.buildVersions)
  {
    match lookup
    case NoTrain =>
      if initialBuildNumber.None? then Failure(NoBuildAndNoInitialBuildNumber)
      else Success(initialBuildNumber)
    case Train(builds) =>
      if |builds| == 0 then Success(None) else Success(Some(SelectMax(builds)))
  }

  /** The `agvtool` sub-command that sets the build number of all targets. */
  const NewVersionAll: String := "new-version -all "

  /** The arguments passed to `agvtool`: the `build_number` option with its
      surrounding whitespace removed when it is given, the computed version
      otherwise. */
  function AgvtoolArguments(buildNumber: Option<String>, resultVersion: String): (r: String)
    ensures |r| >= |NewVersionAll| && r[..|NewVersionAll|] == NewVersionAll
    ensures buildNumber.None? ==> r[|NewVersionAll|..] == resultVersion
    ensures buildNumber.Some? ==>
      var v := r[|NewVersionAll|..];
      && TrimmedOf(buildNumber.value, v)
      && (|v| > 0 ==> !IsSpace(v[0]) && !IsSpace(v[|v| - 1]))
  {
    var version := if buildNumber.Some? then Strip(buildNumber.value) else resultVersion;
    assert (NewVersionAll + version)[|NewVersionAll|..] == version;
    NewVersionAll + version
  }

  /** What the action does after reading the latest build number. */
  datatype Outcome =
    /** The latest build number was flat; `IncrementBuildNumberAction` did
        the work. */
    | DelegatedToIncrementBuildNumber
    /** The computed `result_version` and the arguments `agvtool` is run
        with; with a `build_number` override the two can differ. */
    | SetAllTargets(resultVersion: String, agvtoolArguments: String)

  /** What the action does with the latest build number once it has one:
      hand a flat number to the external incrementer, or bump the last
      segment and choose the version to set. */
  function Proceed(current: String, buildNumber: Option<String>): (o: Outcome)
    ensures o.DelegatedToIncrementBuildNumber? <==> |Split(current, Dot)| <= 1
    ensures o.SetAllTargets? ==> NextBuildNumber(current) == Incremented(o.resultVersion)
    ensures o.SetAllTargets? ==> AtMost(current, o.resultVersion)
    ensures o.SetAllTargets? && buildNumber.None? ==> o.agvtoolArguments == NewVersionAll + o.resultVersion
    ensures o.SetAllTargets? && buildNumber.Some? ==>
      o.agvtoolArguments == NewVersionAll + Strip(buildNumber.value)
  {
    match NextBuildNumber(current)
    case DelegateToIncrementBuildNumber =>
      DelegatedToIncrementBuildNumber
    case Incremented(version) =>
      IncrementNeverOlder(current);
      var arguments := AgvtoolArguments(buildNumber, version);
      assert buildNumber.None? ==> arguments == NewVersionAll + version by {
        assert arguments == arguments[..|NewVersionAll|] + arguments[|NewVersionAll|..];
      }
      SetAllTargets(version, arguments)
  }

  /** The action from the train lookup on: pick the latest build number, fall
      back or stop, then delegate or bump its last segment and choose the
      version to set. */
  function Run(lookup: TrainLookup, initialBuildNumber: Option<String>, buildNumber: Option<String>)
    : (r: Result<Outcome, ActionError>)
    ensures lookup.NoTrain? && initialBuildNumber.None? ==> r == Failure(NoBuildAndNoInitialBuildNumber)
    ensures lookup.NoTrain? && initialBuildNumber.Some? ==>
      r == Success(Proceed(initialBuildNumber.value, buildNumber))
    ensures lookup == Train([]) ==> r == Failure(NilBuildNumber)
    ensures lookup.Train? && |lookup.buildVersions| > 0 ==>
      r == Success(Proceed(SelectMax(lookup.buildVersions), buildNumber))
    ensures r.Success? && r.value.SetAllTargets? && lookup.Train? ==>
      forall b :: b in lookup.buildVersions ==> AtMost(b, r.value.resultVersion)
    ensures r.Success? && r.value.SetAllTargets? && buildNumber.None? ==>
      r.value.agvtoolArguments == NewVersionAll + r.value.resultVersion
  {
    match LatestBuildNumber(lookup, initialBuildNumber)
    case Failure(e) => Failure(e)
    case Success(None) => Failure(NilBuildNumber)
    case Success(Some(current)) =>
      var outcome := Proceed(current, buildNumber);
      assert outcome.SetAllTargets? && lookup.Train? ==>
        forall b :: b in lookup.buildVersions ==> AtMost(b, outcome.resultVersion) by {
        if outcome.SetAllTargets? && lookup.Train? {
          forall b | b in lookup.buildVersions
            ensures AtMost(b, outcome.resultVersion)
          {
            CompareTransitive(b, current, outcome.resultVersion);
          }
        }
      }
      Success(outcome)
  }

  /** Whichever of several tied maximal builds a sort leaves last, the
      `result_version` computed from it never sorts before any build of the
      train, and sorts strictly after all of them when that build has two or
      three segments. A `build_number` override is what agvtool then sets
      instead, and it is not compared. */
  lemma AnyMaximalLatestBuild(builds: seq<String>, latest: String, buildNumber: Option<String>)
    requires IsMaximal(AtMost, latest, builds)
    ensures Proceed(latest, buildNumber).SetAllTargets? ==>
      forall b :: b in builds ==> AtMost(b, Proceed(latest, buildNumber).resultVersion)
    ensures 2 <= |Split(latest, Dot)| <= 3 ==>
      && Proceed(latest, buildNumber).SetAllTargets?
      && forall b :: b in builds ==> Compare(b, Proceed(latest, buildNumber).resultVersion) == -1
  {
    var o := Proceed(latest, buildNumber);
    if o.SetAllTargets? {
      forall b | b in builds
        ensures AtMost(b, o.resultVersion)
        ensures 2 <= |Split(latest, Dot)| <= 3 ==> Compare(b, o.resultVersion) == -1
      {
        CompareTransitive(b, latest, o.resultVersion);
        if 2 <= |Split(latest, Dot)| <= 3 {
          IncrementIsNewer(latest);
          CompareAntisymmetric(o.resultVersion, latest);
          CompareTransitive(b, latest, o.resultVersion);
        }
      }
    }
  }

  /** When the latest build of the train has two or three segments, the
      computed `result_version` sorts strictly after every build already in
      the train. */
  lemma NewVersionIsNewestInTrain(builds: seq<String>, buildNumber: Option<String>, initialBuildNumber: Option<String>)
    requires |builds| > 0
    requires 2 <= |Split(SelectMax(builds), Dot)| <= 3
    ensures Run(Train(builds), initialBuildNumber, buildNumber).Success?
    ensures Run(Train(builds), initialBuildNumber, buildNumber).value.SetAllTargets?
    ensures forall b :: b in builds ==>
      Compare(b, Run(Train(builds), initialBuildNumber, buildNumber).value.resultVersion) == -1
  {
    AnyMaximalLatestBuild(builds, SelectMax(builds), buildNumber);
  }

  /** A train holding "1.2.0" and "1.2", which tie, sets "1.2.1": the plain
      sort puts "1.2" first and the comparator sort keeps the tie in that
      order. */
  lemma TiedTrainExample(initialBuildNumber: Option<String>)
    ensures Run(Train(["1.2.0", "1.2"]), initialBuildNumber, None)
         == Success(SetAllTargets("1.2.1", NewVersionAll + "1.2.1"))
  {
    TiedMaximaPickTheStringLast();
    assert Run(Train(["1.2.0", "1.2"]), initialBuildNumber, None) == Success(Proceed("1.2.0", None));
    IncrementOfZeroPatch();
    var o := Proceed("1.2.0", None);
    assert o.SetAllTargets?;
    assert o.resultVersion == "1.2.1";
  }

  /** A flat latest build number, or a missing train with a flat initial
      build number, is handed to the external incrementer. */
  lemma FlatBuildNumberIsDelegated(lookup: TrainLookup, initialBuildNumber: Option<String>, buildNumber: Option<String>)
    requires LatestBuildNumber(lookup, initialBuildNumber).Success?
    requires LatestBuildNumber(lookup, initialBuildNumber).value.Some?
    requires |Split(LatestBuildNumber(lookup, initialBuildNumber).value.value, Dot)| <= 1
    ensures Run(lookup, initialBuildNumber, buildNumber) == Success(DelegatedToIncrementBuildNumber)
  {
  }

  // ---------------------------------------------------------------------------
  // The empty train: as written and as intended
  // ---------------------------------------------------------------------------

  /** As written, an empty train ends in the nil build number even when
      `initial_build_number` is set, while the intended lookup uses that
      option. */
  lemma EmptyTrainIgnoresInitialBuildNumber(initialBuildNumber: String, buildNumber: Option<String>)
    ensures Run(Train([]), Some(initialBuildNumber), buildNumber) == Failure(NilBuildNumber)
    ensures RunIntended(Train([]), Some(initialBuildNumber), buildNumber).Success?
  {
  }

  /** The lookup the `initial_build_number` option describes (a value used
      when no build is in the current train): an empty train falls back to
      the option exactly as a missing train does. */
  function LatestBuildNumberIntended(lookup: TrainLookup, initialBuildNumber: Option<String>)
    : (r: Result<String, ActionError>)
    ensures r != Failure(NilBuildNumber)
    ensures lookup.NoTrain? || |lookup.buildVersions| == 0 ==>
      && (r.Success? <==> initialBuildNumber.Some?)
      && (r.Success? ==> r.value == initialBuildNumber.value)
    ensures lookup.Train? && |lookup.buildVersions| > 0 ==>
      r.Success? && IsMaximal(AtMost, r.value, lookup.buildVersions)
  {
    if lookup.Train? && |lookup.buildVersions| > 0 then Success(SelectMax(lookup.buildVersions))
    else if initialBuildNumber.None? then Failure(NoBuildAndNoInitialBuildNumber)
    else Success(initialBuildNumber.value)
  }

  /** The action with the intended lookup: it stops only when there is no
      build at all and no `initial_build_number`. */
  function RunIntended(lookup: TrainLookup, initialBuildNumber: Option<String>, buildNumber: Option<String>)
    : (r: Result<Outcome, ActionError>)
    ensures r.Failure? <==> (lookup.NoTrain? || |lookup.buildVersions| == 0) && initialBuildNumber.None?
    ensures r.Failure? ==> r.error == NoBuildAndNoInitialBuildNumber
    ensures (lookup.NoTrain? || |lookup.buildVersions| == 0) && initialBuildNumber.Some? ==>
      r == Success(Proceed(initialBuildNumber.value, buildNumber))
    ensures lookup.Train? && |lookup.buildVersions| > 0 ==>
      r == Success(Proceed(SelectMax(lookup.buildVersions), buildNumber))
    ensures r.Success? && r.value.SetAllTargets? && lookup.Train? ==>
      forall b :: b in lookup.buildVersions ==> AtMost(b, r.value.resultVersion)
  {
    match LatestBuildNumberIntended(lookup, initialBuildNumber)
    case Failure(e) => Failure(e)
    case Success(current) =>
      var outcome := Proceed(current, buildNumber);
      assert outcome.SetAllTargets? && lookup.Train? ==>
        forall b :: b in lookup.buildVersions ==> AtMost(b, outcome.resultVersion) by {
        if outcome.SetAllTargets? && lookup.Train? {
          forall b | b in lookup.buildVersions
            ensures AtMost(b, outcome.resultVersion)
          {
            CompareTransitive(b, current, outcome.resultVersion);
          }
        }
      }
      Success(outcome)
  }
}
