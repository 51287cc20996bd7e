/** The constant tables of the rating lab: the agent-to-role table and the
    weight presets. Roles are kept as the strings the application shows and
    groups by; weights are maps from the weight names to reals. */
module Tables {

  const Unknown: string := "Unknown"

  /** The five role names a player can be assigned. */
  const Roles: set<string> := {"Controller", "Initiator", "Duelist", "Sentinel", Unknown}

  /** `AGENT_TO_ROLE`: the 27 agents the application knows. */
  const AgentToRole: map<string, string> := map[
    "Omen" := "Controller",
    "Viper" := "Controller",
    "Sova" := "Initiator",
    "Raze" := "Duelist",
    "Cypher" := "Sentinel",
    "Jett" := "Duelist",
    "Killjoy" := "Sentinel",
    "Fade" := "Initiator",
    "Breach" := "Initiator",
    "Kayo" := "Initiator",
    "Yoru" := "Duelist",
    "Gekko" := "Initiator",
    "Neon" := "Duelist",
    "Tejo" := "Duelist",
    "Skye" := "Initiator",
    "Astra" := "Controller",
    "Brimstone" := "Controller",
    "Vyse" := "Sentinel",
    "Deadlock" := "Sentinel",
    "Harbor" := "Controller",
    "Sage" := "Sentinel",
    "Chamber" := "Sentinel",
    "Iso" := "Duelist",
    "Clove" := "Controller",
    "Waylay" := "Sentinel",
    "Phoenix" := "Duelist",
    "Reyna" := "Duelist"
  ]

  /** `AGENT_TO_ROLE[agent] || "Unknown"`: the role of an agent, with the
      fallback for agents the table does not list. */
  function RoleOf(agent: string): (role: string)
    ensures role in Roles
    ensures role == Unknown <==> agent !in AgentToRole
    ensures agent in AgentToRole ==> role == AgentToRole[agent]
  {
    if agent in AgentToRole then AgentToRole[agent] else Unknown
  }

  /** Every agent of the sample data set has a known role. */
  lemma SampleAgentsHaveRoles()
    ensures forall agent :: agent in ["Jett", "Omen", "Cypher", "Raze", "Sova", "Fade", "Killjoy"] ==>
      RoleOf(agent) != Unknown
  {
  }

  /** The eight weight names; note that the weight of `acs_per_round` is
      called `acs`. */
  const WeightNames: seq<string> := ["kpr", "dpr", "adr", "kast", "entry", "acs", "headshot", "consistency"]

  /** `DEFAULT_WEIGHTS`. The `dpr` weight is applied with a negative sign. */
  const DefaultWeights: map<string, real> := map[
    "kpr" := 0.30, "dpr" := 0.40, "adr" := 0.12, "kast" := 0.15,
    "entry" := 0.25, "acs" := 0.20, "headshot" := 0.08, "consistency" := 0.10
  ]

  /** `PRESETS`: the balanced preset is a copy of the default weights. */
  const Presets: map<string, map<string, real>> := map[
    "スカウト（バランス）" := DefaultWeights,
    "火力重視" := map[
      "kpr" := 0.40, "dpr" := 0.50, "adr" := 0.20, "kast" := 0.10,
      "entry" := 0.20, "acs" := 0.25, "headshot" := 0.15, "consistency" := 0.05
    ],
    "安定性重視" := map[
      "kpr" := 0.20, "dpr" := 0.35, "adr" := 0.08, "kast" := 0.25,
      "entry" := 0.15, "acs" := 0.12, "headshot" := 0.05, "consistency" := 0.20
    ],
    "エントリー重視" := map[
      "kpr" := 0.25, "dpr" := 0.45, "adr" := 0.10, "kast" := 0.12,
      "entry" := 0.35, "acs" := 0.18, "headshot" := 0.10, "consistency" := 0.08
    ],
    "ACS基準" := map[
      "kpr" := 0.15, "dpr" := 0.30, "adr" := 0.10, "kast" := 0.15,
      "entry" := 0.15, "acs" := 0.40, "headshot" := 0.12, "consistency" := 0.08
    ]
  ]

  /** Every preset gives a positive weight to each of the eight weight names,
      and none exceeds 0.5. */
  lemma PresetsComplete()
    ensures forall p, k :: p in Presets && k in WeightNames ==>
      k in Presets[p] && 0.0 < Presets[p][k] <= 0.5
  {
  }
}
