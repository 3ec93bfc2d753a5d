/**
 * The fleet service: fleet statistics and the per-vessel compliance report
 * computed from the vessel and certificate repositories, and the record
 * rules of creating a vessel, looking one up, soft-deleting it and creating
 * a certificate. The repositories are in-memory sequences in insertion
 * order, with the generated id of a record one more than its position.
 */
module Fleet {
  import opened Wrappers
  import Seqs
  import opened FleetEntities

  /** The vessel types the statistics count, in their order. */
  const VesselTypes: seq<string> := ["CONTAINER", "BULK_CARRIER", "TANKER", "CRUISE", "FERRY", "CARGO", "FISHING", "NAVAL", "OFFSHORE", "OTHER"]

  /** The vessel statuses the statistics count, in their order. */
  const VesselStatuses: seq<string> := ["ACTIVE", "MAINTENANCE", "DOCKED", "DECOMMISSIONED", "EMERGENCY"]

  const ThirtyDaysMs: nat := 30 * 24 * 60 * 60 * 1000
  const NinetyDaysMs: nat := 90 * 24 * 60 * 60 * 1000

  // ---------------------------------------------------------------------------
  // Grouped counts
  // ---------------------------------------------------------------------------

  /** One `{ type, count }` or `{ status, count }` entry. */
  datatype Count = Count(key: string, count: nat)

  function HasKey<T>(f: T -> string, k: string): T -> bool {
    x => f(x) == k
  }

  function KeyIn<T>(f: T -> string, keys: seq<string>): T -> bool {
    x => f(x) in keys
  }

  /** `keys.map(k => ({ k, count: xs.filter(x => f(x) === k).length }))` */
  function CountBy<T>(xs: seq<T>, keys: seq<string>, f: T -> string): (r: seq<Count>)
    ensures |r| == |keys|
    ensures forall i :: 0 <= i < |keys| ==> r[i] == Count(keys[i], |Seqs.Filter(xs, HasKey(f, keys[i]))|)
  {
    if keys == [] then [] else
      var n := |keys| - 1;
      CountBy(xs, keys[..n], f) + [Count(keys[n], |Seqs.Filter(xs, HasKey(f, keys[n]))|)]
  }

  /** The sum of the counts. */
  function Total(cs: seq<Count>): nat {
    if cs == [] then 0 else Total(cs[..|cs| - 1]) + cs[|cs| - 1].count
  }

  /** Over distinct keys, the counts add up to the number of elements whose key is one of them. */
  lemma {:induction false} CountByTotal<T>(xs: seq<T>, keys: seq<string>, f: T -> string)
    requires Seqs.Distinct(keys)
    ensures Total(CountBy(xs, keys, f)) == |Seqs.Filter(xs, KeyIn(f, keys))|
  {
    if keys == [] {
      Seqs.FilterNone(xs, KeyIn(f, keys));
    } else {
      var n := |keys| - 1;
      var init := keys[..n];
      assert Seqs.Distinct(init) by {
        forall i, j | 0 <= i < j < n ensures init[i] != init[j] {
          assert init[i] == keys[i] && init[j] == keys[j];
        }
      }
      CountByTotal(xs, init, f);
      var cs := CountBy(xs, keys, f);
      assert cs[..n] == CountBy(xs, init, f);
      assert keys[n] !in init by {
        forall i | 0 <= i < n ensures init[i] != keys[n] {
          assert init[i] == keys[i];
        }
      }
      assert forall k :: k in keys <==> k in init || k == keys[n] by {
        assert keys == init + [keys[n]];
      }
      Seqs.FilterUnionCount(xs, KeyIn(f, init), HasKey(f, keys[n]), KeyIn(f, keys));
    }
  }

  // ---------------------------------------------------------------------------
  // getFleetStatistics
  // ---------------------------------------------------------------------------

  /** The fleet statistics; `averageAge` is not part of this model. */
  datatype FleetStatistics = FleetStatistics(
    totalVessels: nat,
    vesselsByType: seq<Count>,
    vesselsByStatus: seq<Count>,
    totalDeadweight: real,
    totalGrossTonnage: real,
    certificatesExpiring: nat,
    certificatesExpired: nat,
    certificatesValid: nat,
    criticalAlerts: nat,
    maintenanceDue: nat)

  function ActiveVessel(): Vessel -> bool {
    (v: Vessel) => v.isActive
  }

  function ActiveCertificate(): Certificate -> bool {
    (c: Certificate) => c.isActive
  }

  function TypeOf(): Vessel -> string {
    (v: Vessel) => v.vesselType
  }

  function StatusOf(): Vessel -> string {
    (v: Vessel) => v.status
  }

  function ExpiredAt(now: int): Certificate -> bool {
    (c: Certificate) => c.expiryDate < now
  }

  function ExpiringAt(now: int): Certificate -> bool {
    (c: Certificate) => c.expiryDate >= now && c.expiryDate <= now + NinetyDaysMs
  }

  function ValidAt(now: int): Certificate -> bool {
    (c: Certificate) => c.expiryDate > now + NinetyDaysMs
  }

  function AlertAt(now: int): Certificate -> bool {
    (c: Certificate) => IsCritical(c) && (c.expiryDate < now || c.expiryDate <= now + ThirtyDaysMs)
  }

  /** `vessels.reduce((sum, v) => sum + v.deadweight, 0)` */
  function TotalDeadweight(vs: seq<Vessel>): real {
    if vs == [] then 0.0 else TotalDeadweight(vs[..|vs| - 1]) + vs[|vs| - 1].deadweight
  }

  /** `vessels.reduce((sum, v) => sum + v.grossTonnage, 0)` */
  function TotalGrossTonnage(vs: seq<Vessel>): real {
    if vs == [] then 0.0 else TotalGrossTonnage(vs[..|vs| - 1]) + vs[|vs| - 1].grossTonnage
  }

  /**
   * `getFleetStatistics`: the active vessels and the active certificates (of
   * any vessel, active or not) at the instant `now`.
   */
  function Statistics(vessels: seq<Vessel>, certificates: seq<Certificate>, now: int): (r: FleetStatistics)
    ensures r.totalVessels <= |vessels| && r.maintenanceDue <= r.totalVessels
    ensures |r.vesselsByType| == |VesselTypes| && |r.vesselsByStatus| == |VesselStatuses|
    ensures r.certificatesExpired + r.certificatesExpiring + r.certificatesValid <= |certificates|
    ensures r.criticalAlerts <= |certificates|
  {
    var vs := Seqs.Filter(vessels, ActiveVessel());
    var cs := Seqs.Filter(certificates, ActiveCertificate());
    Partition(cs, now);
    FleetStatistics(
      |vs|,
      CountBy(vs, VesselTypes, TypeOf()),
      CountBy(vs, VesselStatuses, StatusOf()),
      TotalDeadweight(vs),
      TotalGrossTonnage(vs),
      |Seqs.Filter(cs, ExpiringAt(now))|,
      |Seqs.Filter(cs, ExpiredAt(now))|,
      |Seqs.Filter(cs, ValidAt(now))|,
      |Seqs.Filter(cs, AlertAt(now))|,
      |Seqs.Filter(vs, HasKey(StatusOf(), "MAINTENANCE"))|)
  }

  function DueAt(now: int): Certificate -> bool {
    (c: Certificate) => c.expiryDate <= now + NinetyDaysMs
  }

  function Always(): Certificate -> bool {
    (c: Certificate) => true
  }

  /** Expired, expiring and valid split the timeline, so every active certificate is counted exactly once. */
  lemma StatisticsPartition(vessels: seq<Vessel>, certificates: seq<Certificate>, now: int)
    ensures var s := Statistics(vessels, certificates, now);
            s.certificatesExpired + s.certificatesExpiring + s.certificatesValid
            == |Seqs.Filter(certificates, ActiveCertificate())|
  {
    var cs := Seqs.Filter(certificates, ActiveCertificate());
    Partition(cs, now);
  }

  lemma VesselKeysDistinct()
    ensures Seqs.Distinct(VesselTypes)
    ensures Seqs.Distinct(VesselStatuses)
  {
  }

  /**
   * The by-type and by-status counts never add up to more than the active
   * vessels, and add up to all of them when every active vessel's type
   * (status) is one of the listed ones.
   */
  lemma StatisticsGroupTotals(vessels: seq<Vessel>, certificates: seq<Certificate>, now: int)
    ensures var s := Statistics(vessels, certificates, now);
            && Total(s.vesselsByType) <= s.totalVessels
            && Total(s.vesselsByStatus) <= s.totalVessels
    ensures (forall v :: v in vessels && v.isActive ==> v.vesselType in VesselTypes) ==>
              Total(Statistics(vessels, certificates, now).vesselsByType) == Statistics(vessels, certificates, now).totalVessels
    ensures (forall v :: v in vessels && v.isActive ==> v.status in VesselStatuses) ==>
              Total(Statistics(vessels, certificates, now).vesselsByStatus) == Statistics(vessels, certificates, now).totalVessels
  {
    var vs := Seqs.Filter(vessels, ActiveVessel());
    Seqs.FilterMembers(vessels, ActiveVessel());
    VesselKeysDistinct();
    CountByTotal(vs, VesselTypes, TypeOf());
    CountByTotal(vs, VesselStatuses, StatusOf());
    if forall v :: v in vessels && v.isActive ==> v.vesselType in VesselTypes {
      Seqs.FilterAll(vs, KeyIn(TypeOf(), VesselTypes));
    }
    if forall v :: v in vessels && v.isActive ==> v.status in VesselStatuses {
      Seqs.FilterAll(vs, KeyIn(StatusOf(), VesselStatuses));
    }
  }

  /** `maintenanceDue` is the MAINTENANCE entry of the by-status counts. */
  lemma MaintenanceDueIsStatusEntry(vessels: seq<Vessel>, certificates: seq<Certificate>, now: int)
    ensures var s := Statistics(vessels, certificates, now);
            s.vesselsByStatus[1] == Count("MAINTENANCE", s.maintenanceDue)
  {
  }

  function CriticalWithin30Days(now: int): Certificate -> bool {
    (c: Certificate) => IsCritical(c) && c.expiryDate <= now + ThirtyDaysMs
  }

  /** The `< now` disjunct of the critical-alert filter is subsumed by `<= now + 30 days`. */
  lemma CriticalAlertsWithin30Days(vessels: seq<Vessel>, certificates: seq<Certificate>, now: int)
    ensures Statistics(vessels, certificates, now).criticalAlerts
            == |Seqs.Filter(Seqs.Filter(certificates, ActiveCertificate()), CriticalWithin30Days(now))|
  {
    Seqs.FilterEquiv(Seqs.Filter(certificates, ActiveCertificate()), AlertAt(now), CriticalWithin30Days(now));
  }

  // ---------------------------------------------------------------------------
  // getComplianceReport
  // ---------------------------------------------------------------------------

  datatype ComplianceRow = ComplianceRow(
    vessel: Vessel,
    totalCertificates: nat,
    validCertificates: nat,
    expiredCertificates: nat,
    expiringSoonCertificates: nat,
    complianceScore: int,
    criticalIssues: nat)

  /** `vessel.certificates.filter(c => c.isActive)`: the vessel's own active certificates. */
  function CertificatesOf(v: Vessel, certificates: seq<Certificate>): (r: seq<Certificate>)
    ensures forall c :: c in r <==> c in certificates && c.vesselId == v.id && c.isActive
  {
    var own := (c: Certificate) => c.vesselId == v.id && c.isActive;
    Seqs.FilterMembers(certificates, own);
    Seqs.Filter(certificates, own)
  }

  function IssueAt(now: int): Certificate -> bool {
    (c: Certificate) => IsCritical(c) && c.expiryDate <= now + NinetyDaysMs
  }

  /** `Math.round`: to the nearest integer, halves upwards. */
  function Round(x: real): (r: int)
    ensures r as real - 0.5 <= x < r as real + 0.5
  {
    (x + 0.5).Floor
  }

  /** `Math.max(0, 100 - (expired*40 + expiring*20 + critical*30) / total)`, or 100 without certificates. */
  function Score(total: nat, expired: nat, expiring: nat, critical: nat): (r: real)
    ensures 0.0 <= r <= 100.0
    ensures total == 0 ==> r == 100.0
  {
    if total == 0 then 100.0
    else
      var penalty := ((expired * 40 + expiring * 20 + critical * 30) as real) / (total as real);
      assert penalty >= 0.0;
      if 100.0 - penalty > 0.0 then 100.0 - penalty else 0.0
  }

  /** One row of the compliance report. */
  function Compliance(v: Vessel, certificates: seq<Certificate>, now: int): (r: ComplianceRow)
    ensures r.vessel == v && r.totalCertificates == |CertificatesOf(v, certificates)|
  {
    var cs := CertificatesOf(v, certificates);
    var t := |cs|;
    var valid := |Seqs.Filter(cs, ValidAt(now))|;
    var expired := |Seqs.Filter(cs, ExpiredAt(now))|;
    var expiring := |Seqs.Filter(cs, ExpiringAt(now))|;
    var critical := |Seqs.Filter(cs, IssueAt(now))|;
    ComplianceRow(v, t, valid, expired, expiring, Round(Score(t, expired, expiring, critical)), critical)
  }

  /** Expired, expiring and valid split any list of certificates. */
  lemma Partition(cs: seq<Certificate>, now: int)
    ensures |Seqs.Filter(cs, ValidAt(now))| + |Seqs.Filter(cs, ExpiredAt(now))| + |Seqs.Filter(cs, ExpiringAt(now))| == |cs|
  {
    Seqs.FilterUnionCount(cs, ExpiredAt(now), ExpiringAt(now), DueAt(now));
    Seqs.FilterUnionCount(cs, DueAt(now), ValidAt(now), Always());
    Seqs.FilterAll(cs, Always());
  }

  /** The rounded score lies in [0, 100], and is 100 without certificates or without any penalty. */
  lemma RoundedScoreBounds(total: nat, expired: nat, expiring: nat, critical: nat)
    ensures 0 <= Round(Score(total, expired, expiring, critical)) <= 100
    ensures total == 0 || expired + expiring + critical == 0 ==> Round(Score(total, expired, expiring, critical)) == 100
  {
    if total > 0 && expired + expiring + critical == 0 {
      assert ((expired * 40 + expiring * 20 + critical * 30) as real) / (total as real) == 0.0;
    }
  }

  /** The counts of a row partition its certificates; the rounded score lies in [0, 100]; no certificates scores 100. */
  lemma ComplianceRowFacts(v: Vessel, certificates: seq<Certificate>, now: int)
    ensures var r := Compliance(v, certificates, now);
            && r.validCertificates + r.expiredCertificates + r.expiringSoonCertificates == r.totalCertificates
            && r.criticalIssues <= r.totalCertificates
            && 0 <= r.complianceScore <= 100
            && (r.totalCertificates == 0 ==> r.complianceScore == 100)
            && (r.expiredCertificates == 0 && r.expiringSoonCertificates == 0 && r.criticalIssues == 0 ==> r.complianceScore == 100)
  {
    var cs := CertificatesOf(v, certificates);
    Partition(cs, now);
    RoundedScoreBounds(|cs|, |Seqs.Filter(cs, ExpiredAt(now))|, |Seqs.Filter(cs, ExpiringAt(now))|, |Seqs.Filter(cs, IssueAt(now))|);
  }

  /** `getComplianceReport`: one row per active vessel, in repository order. */
  function ComplianceReport(vessels: seq<Vessel>, certificates: seq<Certificate>, now: int): (r: seq<ComplianceRow>)
    ensures var vs := Seqs.Filter(vessels, ActiveVessel());
            && |r| == |vs|
            && forall i :: 0 <= i < |r| ==> r[i] == Compliance(vs[i], certificates, now)
  {
    var vs := Seqs.Filter(vessels, ActiveVessel());
    seq(|vs|, i requires 0 <= i < |vs| => Compliance(vs[i], certificates, now))
  }

  /** The report has a row for each active vessel and for no other. */
  lemma ComplianceReportVessels(vessels: seq<Vessel>, certificates: seq<Certificate>, now: int)
    ensures forall v :: v in vessels && v.isActive <==>
              exists i :: 0 <= i < |ComplianceReport(vessels, certificates, now)| && ComplianceReport(vessels, certificates, now)[i].vessel == v
  {
    var vs := Seqs.Filter(vessels, ActiveVessel());
    var r := ComplianceReport(vessels, certificates, now);
    Seqs.FilterMembers(vessels, ActiveVessel());
    forall v | v in vessels && v.isActive
      ensures exists i :: 0 <= i < |r| && r[i].vessel == v
    {
      var i :| 0 <= i < |vs| && vs[i] == v;
      assert r[i].vessel == v;
    }
    forall v, i | 0 <= i < |r| && r[i].vessel == v
      ensures v in vessels && v.isActive
    {
      assert vs[i] in vs && ActiveVessel()(vs[i]);
    }
  }

  // ---------------------------------------------------------------------------
  // Records
  // ---------------------------------------------------------------------------

  datatype FleetError =
    | VesselNotFound(id: int)
    | DuplicateImo(imoNumber: string)
    | DuplicateCertificateNumber(certificateNumber: string)

  /** The fields a caller gives `createVessel`. */
  datatype VesselInput = VesselInput(imoNumber: string, vesselName: string, vesselType: string,
                                     grossTonnage: real, deadweight: real, buildDate: int,
                                     piExpiryDate: int, hullInsuranceExpiry: int, ismExpiryDate: int,
                                     ispsExpiryDate: int, mlcExpiryDate: int)

  /** The fields a caller gives `createCertificate`. */
  datatype CertificateInput = CertificateInput(vesselId: int, certificateType: string, certificateName: string,
                                               certificateNumber: string, issuingAuthority: string,
                                               issuingCountry: string, issueDate: int, expiryDate: int,
                                               surveyDate: Option<int>, conditions: Option<string>,
                                               limitations: Option<string>)

  /** The saved row of a new vessel, with the column defaults. */
  function NewVessel(input: VesselInput, id: nat, now: int): (v: Vessel)
    ensures v.id == id && v.imoNumber == input.imoNumber
    ensures v.status == "ACTIVE" && v.isActive
  {
    Vessel(id, input.imoNumber, input.vesselName, input.vesselType, "ACTIVE",
           input.grossTonnage, input.deadweight, input.buildDate,
           input.piExpiryDate, input.hullInsuranceExpiry, input.ismExpiryDate,
           input.ispsExpiryDate, input.mlcExpiryDate, true, now)
  }

  /** The saved row of a new certificate, with the column defaults. */
  function NewCertificate(input: CertificateInput, id: nat): (c: Certificate)
    ensures c.id == id && c.vesselId == input.vesselId && c.certificateNumber == input.certificateNumber
    ensures c.status == "VALID" && c.alertDaysBefore == 90 && c.isActive
  {
    Certificate(id, input.vesselId, input.certificateType, input.certificateName, input.certificateNumber,
                "VALID", input.issuingAuthority, input.issuingCountry, input.issueDate, input.expiryDate,
                input.surveyDate, input.conditions, input.limitations, 90, true)
  }

  /** Some vessel, active or soft-deleted, already has this IMO number. */
  predicate ImoTaken(vs: seq<Vessel>, imo: string)
    ensures ImoTaken(vs, imo) <==> exists v :: v in vs && v.imoNumber == imo
  {
    exists i :: 0 <= i < |vs| && vs[i].imoNumber == imo
  }

  /** Some certificate, active or not, already has this number. */
  predicate NumberTaken(cs: seq<Certificate>, number: string)
    ensures NumberTaken(cs, number) <==> exists c :: c in cs && c.certificateNumber == number
  {
    exists i :: 0 <= i < |cs| && cs[i].certificateNumber == number
  }

  /** `findOne({ where: { id, isActive: true } })`: the position of the first active vessel with the id. */
  function FindVessel(vs: seq<Vessel>, id: int): (r: Option<nat>)
    ensures r.Some? ==> r.value < |vs| && vs[r.value].id == id && vs[r.value].isActive
    ensures r.None? <==> forall i :: 0 <= i < |vs| ==> !(vs[i].id == id && vs[i].isActive)
  {
    if vs == [] then None
    else if vs[0].id == id && vs[0].isActive then Some(0)
    else match FindVessel(vs[1..], id)
      case None =>
        assert forall i :: 1 <= i < |vs| ==> vs[i] == vs[1..][i - 1];
        None
      case Some(k) => Some(k + 1)
  }

  /** `getVesselById`: the active vessel with the id, or not-found. */
  function LookupVessel(vs: seq<Vessel>, id: int): (r: Result<Vessel, FleetError>)
    ensures r.Ok? <==> exists i :: 0 <= i < |vs| && vs[i].id == id && vs[i].isActive
    ensures r.Ok? ==> r.value in vs && r.value.id == id && r.value.isActive
    ensures r.Err? ==> r.error == VesselNotFound(id)
  {
    match FindVessel(vs, id)
    case None => Err(VesselNotFound(id))
    case Some(i) => Ok(vs[i])
  }

  /** Generated ids: each record's id is one more than its position. */
  predicate Numbered(vs: seq<Vessel>) {
    forall i :: 0 <= i < |vs| ==> vs[i].id == i + 1
  }

  /** The soft delete of `deleteVessel`: the row stays, inactive, with a new update time. */
  function Deactivated(vs: seq<Vessel>, i: nat, now: int): (r: seq<Vessel>)
    requires i < |vs|
    ensures |r| == |vs| && !r[i].isActive && r[i].updatedAt == now
    ensures r[i].id == vs[i].id && r[i].imoNumber == vs[i].imoNumber && r[i].vesselName == vs[i].vesselName
    ensures forall j :: 0 <= j < |vs| && j != i ==> r[j] == vs[j]
    ensures forall j :: 0 <= j < |r| && r[j].isActive ==> vs[j].isActive
  {
    vs[i := vs[i].(isActive := false, updatedAt := now)]
  }

  /**
   * After the soft delete of a vessel, looking it up fails, every other
   * lookup is as before, no record is removed and its IMO number stays taken.
   */
  lemma DeleteHidesVessel(vs: seq<Vessel>, i: nat, now: int)
    requires Numbered(vs) && i < |vs|
    ensures LookupVessel(Deactivated(vs, i, now), vs[i].id).Err?
    ensures forall id :: id != vs[i].id ==> LookupVessel(Deactivated(vs, i, now), id) == LookupVessel(vs, id)
    ensures Numbered(Deactivated(vs, i, now)) && |Deactivated(vs, i, now)| == |vs|
    ensures forall imo :: ImoTaken(Deactivated(vs, i, now), imo) <==> ImoTaken(vs, imo)
  {
    var ws := Deactivated(vs, i, now);
    forall id | id != vs[i].id ensures FindVessel(ws, id) == FindVessel(vs, id) {
      SameFind(vs, ws, id, vs[i].id);
    }
    forall imo ensures ImoTaken(ws, imo) <==> ImoTaken(vs, imo) {
      assert forall j :: 0 <= j < |vs| ==> ws[j].imoNumber == vs[j].imoNumber;
    }
  }

  /** Two repositories that differ only in rows with another id find the same row for this one. */
  lemma {:induction false} SameFind(vs: seq<Vessel>, ws: seq<Vessel>, id: int, other: int)
    requires |vs| == |ws| && id != other
    requires forall j :: 0 <= j < |vs| ==> vs[j] == ws[j] || (vs[j].id == other && ws[j].id == other)
    ensures FindVessel(ws, id) == FindVessel(vs, id)
  {
    if vs != [] {
      SameFind(vs[1..], ws[1..], id, other);
    }
  }

  /** The in-memory fleet service over its two repositories. */
  class FleetService {
    var vessels: seq<Vessel>
    var certificates: seq<Certificate>

    /**
     * Generated ids, IMO numbers and certificate numbers unique across all
     * records, and every certificate attached to an existing vessel.
     */
    ghost predicate Valid()
      reads this
    {
      && Numbered(vessels)
      && (forall i, j :: 0 <= i < j < |vessels| ==> vessels[i].imoNumber != vessels[j].imoNumber)
      && (forall i :: 0 <= i < |certificates| ==> certificates[i].id == i + 1)
      && (forall i :: 0 <= i < |certificates| ==> 1 <= certificates[i].vesselId <= |vessels|)
      && (forall i, j :: 0 <= i < j < |certificates| ==>
            certificates[i].certificateNumber != certificates[j].certificateNumber)
    }

    constructor()
      ensures Valid() && vessels == [] && certificates == []
    {
      vessels := [];
      certificates := [];
    }

    /** `getFleetStatistics` over the current repositories. */
    function GetFleetStatistics(now: int): (r: FleetStatistics)
      reads this
      ensures r.totalVessels <= |vessels| && r.maintenanceDue <= r.totalVessels
      ensures r.certificatesExpired + r.certificatesExpiring + r.certificatesValid
              == |Seqs.Filter(certificates, ActiveCertificate())|
    {
      StatisticsPartition(vessels, certificates, now);
      Statistics(vessels, certificates, now)
    }

    /** `getComplianceReport` over the current repositories. */
    function GetComplianceReport(now: int): (r: seq<ComplianceRow>)
      reads this
      ensures |r| <= |vessels|
      ensures forall v :: v in vessels && v.isActive <==> exists i :: 0 <= i < |r| && r[i].vessel == v
    {
      ComplianceReportVessels(vessels, certificates, now);
      ComplianceReport(vessels, certificates, now)
    }

    /** `createVessel`: refuses an IMO number any vessel has, soft-deleted ones included. */
    method CreateVessel(input: VesselInput, now: int) returns (r: Result<Vessel, FleetError>)
      requires Valid()
      modifies this
      ensures Valid()
      ensures certificates == old(certificates)
      ensures ImoTaken(old(vessels), input.imoNumber) ==> r == Err(DuplicateImo(input.imoNumber)) && vessels == old(vessels)
      ensures !ImoTaken(old(vessels), input.imoNumber) ==>
                && r == Ok(NewVessel(input, |old(vessels)| + 1, now))
                && vessels == old(vessels) + [r.value]
    {
      if exists i :: 0 <= i < |vessels| && vessels[i].imoNumber == input.imoNumber {
        return Err(DuplicateImo(input.imoNumber));
      }
      var v := NewVessel(input, |vessels| + 1, now);
      vessels := vessels + [v];
      r := Ok(v);
    }

    /** `deleteVessel`: a soft delete of an active vessel, not-found otherwise. */
    method DeleteVessel(id: int, now: int) returns (r: Outcome<FleetError>)
      requires Valid()
      modifies this
      ensures Valid()
      ensures certificates == old(certificates)
      ensures FindVessel(old(vessels), id).None? ==> r == Fail(VesselNotFound(id)) && vessels == old(vessels)
      ensures FindVessel(old(vessels), id).Some? ==>
                r == Pass && vessels == Deactivated(old(vessels), FindVessel(old(vessels), id).value, now)
      ensures LookupVessel(vessels, id).Err?
    {
      var found := FindVessel(vessels, id);
      if found.None? {
        return Fail(VesselNotFound(id));
      }
      DeleteHidesVessel(vessels, found.value, now);
      vessels := Deactivated(vessels, found.value, now);
      r := Pass;
    }

    /** `createCertificate`: the vessel must be active, and the number new among all certificates. */
    method CreateCertificate(input: CertificateInput) returns (r: Result<Certificate, FleetError>)
      requires Valid()
      modifies this
      ensures Valid()
      ensures vessels == old(vessels)
      ensures LookupVessel(old(vessels), input.vesselId).Err? ==>
                r == Err(VesselNotFound(input.vesselId)) && certificates == old(certificates)
      ensures LookupVessel(old(vessels), input.vesselId).Ok? && NumberTaken(old(certificates), input.certificateNumber) ==>
                r == Err(DuplicateCertificateNumber(input.certificateNumber)) && certificates == old(certificates)
      ensures LookupVessel(old(vessels), input.vesselId).Ok? && !NumberTaken(old(certificates), input.certificateNumber) ==>
                && r == Ok(NewCertificate(input, |old(certificates)| + 1))
                && certificates == old(certificates) + [r.value]
    {
      var vessel := LookupVessel(vessels, input.vesselId);
      if vessel.Err? {
        return Err(vessel.error);
      }
      if exists i :: 0 <= i < |certificates| && certificates[i].certificateNumber == input.certificateNumber {
        return Err(DuplicateCertificateNumber(input.certificateNumber));
      }
      var c := NewCertificate(input, |certificates| + 1);
      certificates := certificates + [c];
      r := Ok(c);
    }
  }
}
