/**
 * Environment-to-configuration selection: one fixed profile for "prod", and the
 * "dev" profile for every other environment name.
 */
module Settings {

  /** Where both profiles read the customer data from (kept as an opaque path string). */
  const DataPath := "data/customer.csv"

  /** The settings record; the source's mutable dataclass holds plain values here. */
  datatype Config = Config(env: string, dataPath: string, logLevel: string, showInvalidRows: bool)

  /** get_config: total, and "dev" when no environment is named. */
  function GetConfig(env: string := "dev"): (c: Config)
    ensures env == "prod" ==> c.env == "prod" && c.logLevel == "WARNING" && !c.showInvalidRows
    ensures env != "prod" ==> c.env == "dev" && c.logLevel == "INFO" && c.showInvalidRows
    ensures c.dataPath == DataPath
  {
    if env == "prod" then
      Config(env := "prod", dataPath := DataPath, logLevel := "WARNING", showInvalidRows := false)
    else
      Config(env := "dev", dataPath := DataPath, logLevel := "INFO", showInvalidRows := true)
  }

  /**
   * The returned environment is always "prod" or "dev", invalid rows are shown exactly
   * outside production, and selecting again by the returned name gives the same profile.
   */
  lemma ConfigIsKnownProfile(env: string)
    ensures GetConfig(env).env == "prod" || GetConfig(env).env == "dev"
    ensures GetConfig(env).showInvalidRows == (GetConfig(env).env != "prod")
    ensures GetConfig(GetConfig(env).env) == GetConfig(env)
  {
  }

  /** There are exactly two profiles: two names select the same one iff both or neither are "prod". */
  lemma ConfigTwoProfiles(env1: string, env2: string)
    ensures GetConfig(env1) == GetConfig(env2) <==> (env1 == "prod" <==> env2 == "prod")
  {
  }

  /** Calling without an argument is the "dev" profile, and so is any unknown name. */
  lemma DefaultIsDev(env: string)
    requires env != "prod"
    ensures GetConfig() == GetConfig("dev") == GetConfig(env)
  {
  }
}
