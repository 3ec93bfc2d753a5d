/**
 * The computed properties of the fleet's two entities, a vessel certificate
 * and a vessel. Dates are milliseconds since the epoch, the current time is
 * the parameter `now`, and the calendar year of an instant is the parameter
 * `yearOf`.
 */
module FleetEntities {
  import opened Wrappers

  /** One day, in milliseconds. */
  const DayMs: nat := 1000 * 60 * 60 * 24

  /** `Math.ceil(a / b)` for a positive divisor. */
  function CeilDiv(a: int, b: int): (r: int)
    requires b > 0
    ensures (r - 1) * b < a <= r * b
  {
    -((-a) / b)
  }

  /** `Math.floor(a / b)` for a positive divisor (Dafny's division is Euclidean, so floored for b > 0). */
  function FloorDiv(a: int, b: int): (r: int)
    requires b > 0
    ensures r * b <= a < (r + 1) * b
  {
    a / b
  }

  // ---------------------------------------------------------------------------
  // VesselCertificate
  // ---------------------------------------------------------------------------

  /** The certificate types of the CertificateType enumeration. */
  const CertificateTypes: seq<string> := [
    "SAFETY_CONSTRUCTION", "SAFETY_EQUIPMENT", "SAFETY_RADIO", "LOAD_LINE",
    "IOPP", "NLS", "GARBAGE", "SEWAGE", "ANTI_FOULING", "BALLAST_WATER",
    "TONNAGE", "SUEZ_TONNAGE", "PANAMA_TONNAGE",
    "COMPASS", "RADAR", "GMDSS", "AIS",
    "DANGEROUS_GOODS", "GRAIN", "SHIP_SANITATION", "DERATTING",
    "ISPS", "CSR", "ISM", "MLC", "ENERGY_EFFICIENCY", "NOX_TECHNICAL",
    "CLASS_CERTIFICATE", "PSC_INSPECTION", "PI_CERTIFICATE", "HULL_INSURANCE", "OTHER"]

  /** The types whose certificates need immediate attention when they lapse. */
  const CriticalTypes: seq<string> := ["SAFETY_CONSTRUCTION", "SAFETY_EQUIPMENT", "LOAD_LINE", "IOPP", "ISM", "ISPS", "MLC"]

  /** The certificate columns the computed properties and the fleet service read. */
  datatype Certificate = Certificate(id: nat, vesselId: int, certificateType: string, certificateName: string,
                                     certificateNumber: string, status: string, issuingAuthority: string,
                                     issuingCountry: string, issueDate: int, expiryDate: int,
                                     surveyDate: Option<int>, conditions: Option<string>, limitations: Option<string>,
                                     alertDaysBefore: int, isActive: bool)

  /** `daysUntilExpiry`: whole days to the expiry, rounded up. */
  function DaysUntilExpiry(c: Certificate, now: int): (d: int)
    ensures (d - 1) * DayMs < c.expiryDate - now <= d * DayMs
  {
    CeilDiv(c.expiryDate - now, DayMs)
  }

  /** `isExpired`: the expiry instant has passed. */
  predicate IsExpired(c: Certificate, now: int)
    ensures IsExpired(c, now) ==> DaysUntilExpiry(c, now) <= 0
    ensures !IsExpired(c, now) ==> DaysUntilExpiry(c, now) >= 0
  {
    now > c.expiryDate
  }

  /** `isExpiringSoon`: within the alert window and not yet at zero days. */
  predicate IsExpiringSoon(c: Certificate, now: int)
    ensures IsExpiringSoon(c, now) ==> now < c.expiryDate && c.alertDaysBefore >= 1
  {
    DaysUntilExpiry(c, now) <= c.alertDaysBefore && DaysUntilExpiry(c, now) > 0
  }

  datatype Priority = High | Medium | Low

  /** `priorityLevel` */
  function PriorityLevel(c: Certificate, now: int): (r: Priority)
    ensures IsExpired(c, now) ==> r == High
    ensures r == High <==> c.expiryDate - now <= 30 * DayMs
    ensures r == Low <==> c.expiryDate - now > 90 * DayMs
  {
    if IsExpired(c, now) then High
    else if DaysUntilExpiry(c, now) <= 30 then High
    else if DaysUntilExpiry(c, now) <= 90 then Medium
    else Low
  }

  /** `certificateAge`: whole days since issue, rounded down. */
  function CertificateAge(c: Certificate, now: int): (d: int)
    ensures d * DayMs <= now - c.issueDate < (d + 1) * DayMs
  {
    FloorDiv(now - c.issueDate, DayMs)
  }

  /** `isCritical` */
  predicate IsCritical(c: Certificate)
    ensures IsCritical(c) ==> c.certificateType in CertificateTypes
  {
    c.certificateType in CriticalTypes
  }

  /** A lapsed certificate has no days left, so it is never "expiring soon". */
  lemma ExpiredIsNotExpiringSoon(c: Certificate, now: int)
    requires IsExpired(c, now)
    ensures DaysUntilExpiry(c, now) <= 0
    ensures !IsExpiringSoon(c, now)
  {
  }

  /** Expiring soon means between one day and the alert window ahead, and not yet lapsed. */
  lemma ExpiringSoonWindow(c: Certificate, now: int)
    requires IsExpiringSoon(c, now)
    ensures 0 < DaysUntilExpiry(c, now) <= c.alertDaysBefore
    ensures !IsExpired(c, now) && c.expiryDate > now
  {
  }

  /**
   * The priority depends on the days left alone: HIGH up to 30 days (a lapsed
   * certificate always has at most zero), MEDIUM above 30 up to 90, LOW beyond.
   */
  lemma PriorityByDays(c: Certificate, now: int)
    ensures PriorityLevel(c, now) == High <==> DaysUntilExpiry(c, now) <= 30
    ensures PriorityLevel(c, now) == Medium <==> 30 < DaysUntilExpiry(c, now) <= 90
    ensures PriorityLevel(c, now) == Low <==> DaysUntilExpiry(c, now) > 90
  {
    if IsExpired(c, now) {
      ExpiredIsNotExpiringSoon(c, now);
    }
  }

  /** A certificate issued no later than now has a non-negative age, and is not older than the time elapsed. */
  lemma AgeNonNegative(c: Certificate, now: int)
    requires c.issueDate <= now
    ensures 0 <= CertificateAge(c, now)
    ensures CertificateAge(c, now) * DayMs <= now - c.issueDate
  {
  }

  /** The seven critical types are distinct members of the enumeration; the remaining types are not critical. */
  lemma CriticalTypesAreTypes(c: Certificate)
    ensures forall t :: t in CriticalTypes ==> t in CertificateTypes
    ensures |CriticalTypes| == 7
    ensures forall i, j :: 0 <= i < j < |CriticalTypes| ==> CriticalTypes[i] != CriticalTypes[j]
    ensures IsCritical(c) ==> c.certificateType in CertificateTypes
    ensures c.certificateType in ["SAFETY_RADIO", "CSR", "OTHER", "PI_CERTIFICATE"] ==> !IsCritical(c)
  {
  }

  // ---------------------------------------------------------------------------
  // Vessel
  // ---------------------------------------------------------------------------

  /** The vessel columns the computed properties and the fleet service read; tonnages are exact decimals. */
  datatype Vessel = Vessel(id: nat, imoNumber: string, vesselName: string, vesselType: string, status: string,
                           grossTonnage: real, deadweight: real, buildDate: int,
                           piExpiryDate: int, hullInsuranceExpiry: int, ismExpiryDate: int,
                           ispsExpiryDate: int, mlcExpiryDate: int, isActive: bool, updatedAt: int)

  /** Ninety days, in milliseconds. */
  const ThreeMonthsMs: nat := 90 * 24 * 60 * 60 * 1000

  /** `ageInYears`: the difference of the calendar years, whatever the day of the year. */
  function AgeInYears(v: Vessel, now: int, yearOf: int -> int): (r: int)
    ensures yearOf(now) == yearOf(v.buildDate) ==> r == 0
    ensures now == v.buildDate ==> r == 0
  {
    yearOf(now) - yearOf(v.buildDate)
  }

  /** A vessel built no later than now has a non-negative age, when the calendar year never runs backwards. */
  lemma AgeInYearsNonNegative(v: Vessel, now: int, yearOf: int -> int)
    requires forall a, b :: a <= b ==> yearOf(a) <= yearOf(b)
    requires v.buildDate <= now
    ensures AgeInYears(v, now, yearOf) >= 0
  {
  }

  /** The five expiry dates the vessel carries itself. */
  function ExpiryDates(v: Vessel): (r: seq<int>)
    ensures |r| == 5
  {
    [v.piExpiryDate, v.hullInsuranceExpiry, v.ismExpiryDate, v.ispsExpiryDate, v.mlcExpiryDate]
  }

  /** `isCertificateExpiringSoon`: `[...dates].some(d => d <= now + 90 days)`. */
  function AnyDueBy(dates: seq<int>, limit: int): (r: bool)
    ensures r <==> exists i :: 0 <= i < |dates| && dates[i] <= limit
  {
    if dates == [] then false
    else
      var rest := AnyDueBy(dates[1..], limit);
      assert forall i :: 1 <= i < |dates| ==> dates[i] == dates[1..][i - 1];
      dates[0] <= limit || rest
  }

  predicate IsCertificateExpiringSoon(v: Vessel, now: int)
    ensures IsCertificateExpiringSoon(v, now) <==> exists i :: 0 <= i < 5 && ExpiryDates(v)[i] <= now + ThreeMonthsMs
    ensures v.piExpiryDate <= now + ThreeMonthsMs ==> IsCertificateExpiringSoon(v, now)
  {
    AnyDueBy(ExpiryDates(v), now + ThreeMonthsMs)
  }

  /** Expiring soon exactly when one of the five dates is at most ninety days ahead, dates already past included. */
  lemma ExpiringSoonMeaning(v: Vessel, now: int)
    ensures IsCertificateExpiringSoon(v, now) <==>
              v.piExpiryDate <= now + ThreeMonthsMs || v.hullInsuranceExpiry <= now + ThreeMonthsMs
              || v.ismExpiryDate <= now + ThreeMonthsMs || v.ispsExpiryDate <= now + ThreeMonthsMs
              || v.mlcExpiryDate <= now + ThreeMonthsMs
  {
    var ds := ExpiryDates(v);
    assert ds[0] == v.piExpiryDate && ds[1] == v.hullInsuranceExpiry && ds[2] == v.ismExpiryDate;
    assert ds[3] == v.ispsExpiryDate && ds[4] == v.mlcExpiryDate;
  }

  /** Moving any of the five dates earlier never clears the flag. */
  lemma ExpiringSoonMonotone(v: Vessel, w: Vessel, now: int)
    requires forall i :: 0 <= i < 5 ==> ExpiryDates(w)[i] <= ExpiryDates(v)[i]
    requires IsCertificateExpiringSoon(v, now)
    ensures IsCertificateExpiringSoon(w, now)
  {
    var i :| 0 <= i < 5 && ExpiryDates(v)[i] <= now + ThreeMonthsMs;
    assert ExpiryDates(w)[i] <= now + ThreeMonthsMs;
  }
}
