/** The learning hooks of the abstract `Mutect2Filter` base class: a filter may gather data
    during the first pass over the variants, learn its parameters from it, and then drop the
    gathered data. The base class keeps no state, and each of its hooks does nothing. */
module FilterHooks {

  /** The hooks a filter exposes to the filtering engine. */
  datatype Hook = Accumulate | Learn | Clear

  /** The learn-then-clear step: learning once, then clearing once. */
  const LearnThenClear: seq<Hook> := [Learn, Clear]

  class Mutect2Filter {
    /** The hooks run on this filter so far, oldest first. The base class has no other
        state, so a hook can change nothing but this record of calls. */
    ghost var Calls: seq<Hook>

    constructor ()
      ensures Calls == []
    {
      Calls := [];
    }

    /** The default first-pass hook ignores the variant, its error probabilities and the
        engine, and changes nothing. */
    method AccumulateDataForLearning<V, E, G>(vc: V, errorProbabilities: E, filteringEngine: G)
      modifies this`Calls
      ensures Calls == old(Calls) + [Accumulate]
    {
      Calls := Calls + [Accumulate];
    }

    /** The default clearing hook changes nothing. */
    method ClearAccumulatedData()
      modifies this`Calls
      ensures Calls == old(Calls) + [Clear]
    {
      Calls := Calls + [Clear];
    }

    /** The default learning hook changes nothing. */
    method LearnParameters()
      modifies this`Calls
      ensures Calls == old(Calls) + [Learn]
    {
      Calls := Calls + [Learn];
    }

    /** Learns the parameters exactly once and then clears the gathered data exactly once. */
    method LearnParametersAndClearAccumulatedData()
      modifies this`Calls
      ensures Calls == old(Calls) + LearnThenClear
    {
      LearnParameters();
      ClearAccumulatedData();
    }
  }
}
