/**
 * The part of the environment the auth flow reads: the two signing secrets
 * and the two token lifetimes, in seconds. Loading them from the process
 * environment is not modelled.
 */
module Env {
  datatype Config = Config(
    jwtAccessSecret: string,
    jwtRefreshSecret: string,
    accessTokenLifetime: nat,
    refreshTokenLifetime: nat)

  /** "15m", the access-token lifetime when none is configured. */
  const DefaultAccessLifetime: nat := 15 * 60

  /** "7d", the refresh-token lifetime when none is configured. */
  const DefaultRefreshLifetime: nat := 7 * 24 * 60 * 60
}
