/** What the rows of both credential tables have in common. */
module CredentialRows {
  import opened Results

  type Instant = int
  type Id = int

  /** Neither revoked nor expired. */
  predicate IsLive(revokedAt: Option<Instant>, expiresAt: Option<Instant>, now: Instant) {
    revokedAt.None? && (expiresAt.None? || expiresAt.value > now)
  }

  /** The part of a hash that a row shows to operators. */
  function Fingerprint(hash: string): string {
    if |hash| <= 16 then hash else hash[..16]
  }
}
