/** Ban records, as stored and as exchanged with peers. Times are in nanoseconds. */
module Bans {
  import opened Options
  import opened Cidr

  type Time = int

  datatype BanSource = LocalDetector(name: string) | ClusterPeer(id: string) | ManualAdmin

  datatype BanRecord = BanRecord(subject: IpNet, createdAt: Time, expiresAt: Option<Time>, severity: nat,
                                 reason: string, evidence: seq<nat>, source: BanSource)
}
