/** The two remaining hooks the servo environment gives its base
    environment: the observation it hands to the agent and the reward. */
module EnvInterface {
  /** The agent sees the spine's observation dictionary as it is: nothing is
      filtered, renamed or vectorised. */
  function GetEnvObservation<O>(spineObservation: O): (observation: O)
    ensures observation == spineObservation
  {
    spineObservation
  }

  /** Every step earns one unit of reward, whatever was observed or done. */
  function GetReward<O, A>(observation: O, action: A): (reward: real)
    ensures reward == 1.0
  {
    1.0
  }
}
