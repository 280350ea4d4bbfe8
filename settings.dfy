/** The configuration values of config.py that the core consumes, passed in explicitly. */
module Settings {
  import Schema

  datatype Config = Config(
    allowedTeams: seq<Schema.Team>,
    minVisitsForSticker: nat,
    maxQrCodesPerBatch: nat,
    defaultQrCodeCount: nat)

  /** The thirteen exhibition teams. */
  const AllowedTeams: seq<Schema.Team> :=
    ["team1", "team2", "team3", "team4", "team5", "team6", "team7",
     "team8", "team9", "team10", "team11", "team12", "team13"]

  /** The defaults config.py uses when no environment variable overrides them. */
  const Default := Config(AllowedTeams, 11, 1000, 500)
}
