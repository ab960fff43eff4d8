/** ai_specialist: a canned answer chosen by the first keyword the query contains. */
module Specialist {
  import opened TextOps

  const TemperatureAnswer: string := "As an AI Specialist, I observe that ARGO floats show decreasing temperature with depth."
  const SalinityAnswer: string := "As an AI Specialist, I see salinity slightly increases with depth in most ARGO profiles."
  const OxygenAnswer: string := "As an AI Specialist, I note that oxygen concentration decreases as depth increases."
  const GraphAnswer: string := "I can generate graphs for temperature, salinity, and oxygen against depth."
  const DefaultAnswer: string := "I am your AI Specialist. Please ask me about temperature, salinity, oxygen, or graphs."

  /** The query is lower-cased, then tested against the keywords in a fixed order. */
  function AiSpecialist(query: string): (answer: string)
    ensures answer in {TemperatureAnswer, SalinityAnswer, OxygenAnswer, GraphAnswer, DefaultAnswer}
  {
    var q := Lower(query);
    if Contains(q, "temperature") then TemperatureAnswer
    else if Contains(q, "salinity") then SalinityAnswer
    else if Contains(q, "oxygen") then OxygenAnswer
    else if Contains(q, "graph") then GraphAnswer
    else DefaultAnswer
  }

  /**
   * Each answer is given exactly when its keyword occurs in the lower-cased
   * query and no keyword earlier in the order does; the default answer
   * exactly when none of the four occurs.
   */
  lemma KeywordPriority(query: string)
    ensures var q, a := Lower(query), AiSpecialist(query);
            && (a == TemperatureAnswer <==> Contains(q, "temperature"))
            && (a == SalinityAnswer <==> !Contains(q, "temperature") && Contains(q, "salinity"))
            && (a == OxygenAnswer <==>
                  !Contains(q, "temperature") && !Contains(q, "salinity") && Contains(q, "oxygen"))
            && (a == GraphAnswer <==>
                  !Contains(q, "temperature") && !Contains(q, "salinity") && !Contains(q, "oxygen")
                  && Contains(q, "graph"))
            && (a == DefaultAnswer <==>
                  !Contains(q, "temperature") && !Contains(q, "salinity") && !Contains(q, "oxygen")
                  && !Contains(q, "graph"))
  {
  }

  /** Matching ignores case: a query and its lower-cased form get the same answer. */
  lemma CaseInsensitive(query: string)
    ensures AiSpecialist(query) == AiSpecialist(Lower(query))
  {
    LowerIdempotent(query);
  }

  lemma LowerTemperatureQuery()
    ensures Lower("Show me temperature data") == "show me temperature data"
  {
    forall i | 0 <= i < 24 ensures Lower("Show me temperature data")[i] == "show me temperature data"[i] {}
  }

  lemma LowerSalinityQuery()
    ensures Lower("Explain salinity pattern") == "explain salinity pattern"
  {
    forall i | 0 <= i < 24 ensures Lower("Explain salinity pattern")[i] == "explain salinity pattern"[i] {}
  }

  lemma LowerGraphQuery()
    ensures Lower("Can you generate graph?") == "can you generate graph?"
  {
    forall i | 0 <= i < 23 ensures Lower("Can you generate graph?")[i] == "can you generate graph?"[i] {}
  }

  lemma TemperatureQueryKeywords()
    ensures Contains(Lower("Show me temperature data"), "temperature")
  {
    LowerTemperatureQuery();
    ContainsAt("show me temperature data", "temperature", 8);
  }

  lemma SalinityQueryLacksTemperature()
    ensures !Contains(Lower("Explain salinity pattern"), "temperature")
  {
    LowerSalinityQuery();
    AbsentCharNotContained("explain salinity pattern", "temperature", 'm');
  }

  lemma SalinityQueryHasSalinity()
    ensures Contains(Lower("Explain salinity pattern"), "salinity")
  {
    LowerSalinityQuery();
    ContainsAt("explain salinity pattern", "salinity", 8);
  }

  lemma GraphQueryLacksTemperature()
    ensures !Contains(Lower("Can you generate graph?"), "temperature")
  {
    LowerGraphQuery();
    AbsentCharNotContained("can you generate graph?", "temperature", 'm');
  }

  lemma GraphQueryLacksSalinity()
    ensures !Contains(Lower("Can you generate graph?"), "salinity")
  {
    LowerGraphQuery();
    AbsentCharNotContained("can you generate graph?", "salinity", 's');
  }

  lemma GraphQueryLacksOxygen()
    ensures !Contains(Lower("Can you generate graph?"), "oxygen")
  {
    LowerGraphQuery();
    AbsentCharNotContained("can you generate graph?", "oxygen", 'x');
  }

  lemma GraphQueryHasGraph()
    ensures Contains(Lower("Can you generate graph?"), "graph")
  {
    LowerGraphQuery();
    ContainsAt("can you generate graph?", "graph", 17);
  }

  /** The three questions the script itself asks get the answers it shows. */
  lemma SampleAnswers()
    ensures AiSpecialist("Show me temperature data") == TemperatureAnswer
    ensures AiSpecialist("Explain salinity pattern") == SalinityAnswer
    ensures AiSpecialist("Can you generate graph?") == GraphAnswer
  {
    TemperatureQueryKeywords();
    SalinityQueryLacksTemperature();
    SalinityQueryHasSalinity();
    GraphQueryLacksTemperature();
    GraphQueryLacksSalinity();
    GraphQueryLacksOxygen();
    GraphQueryHasGraph();
  }
}
