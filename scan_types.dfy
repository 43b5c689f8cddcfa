/** The allow-list of official secureCodeBox scan types and the check that a
    submission names only those. */
module ScanTypes {

  /** Every official scan type, deprecated ones included so that older
      clients are still accepted, plus the sentinel "other" under which
      clients report unofficial scan types. Never changed after start-up. */
  const OfficialScanTypes: set<string> := {
    "amass", "angularjs-csti-scanner", "cmseek", "doggo", "ffuf",
    "git-repo-scanner", "gitleaks", "kube-hunter", "kubeaudit", "ncrack",
    "nikto", "nmap", "nuclei", "screenshooter", "semgrep", "ssh-audit",
    "ssh-scan", "sslyze", "trivy-filesystem", "trivy-image", "trivy-repo",
    "trivy-sbom-image", "trivy", "typo3scan", "whatweb", "wpscan",
    "zap-advanced-scan", "zap-api-scan", "zap-automation-scan",
    "zap-baseline-scan", "zap-full-scan",
    "other"
  }

  /** The name clients use for any scan type that is not official. */
  const Other: string := "other"

  predicate IsOfficial(scanType: string) {
    scanType in OfficialScanTypes
  }

  predicate AllOfficial(scanTypes: seq<string>) {
    forall i :: 0 <= i < |scanTypes| ==> IsOfficial(scanTypes[i])
  }

  /** Position k holds an unofficial scan type and every earlier one is official. */
  predicate FirstOffenderAt(scanTypes: seq<string>, k: int) {
    && 0 <= k < |scanTypes|
    && !IsOfficial(scanTypes[k])
    && forall j :: 0 <= j < k ==> IsOfficial(scanTypes[j])
  }

  /** The outcome of validation: accepted, or rejected naming one scan type. */
  datatype Verdict = Accepted | Rejected(scanType: string)

  /** Validation as a value: scan the list front to back and stop at the
      first scan type that is not official. */
  function Validate(scanTypes: seq<string>): (v: Verdict)
    ensures v.Rejected? ==> v.scanType in scanTypes && !IsOfficial(v.scanType)
  {
    if scanTypes == [] then Accepted
    else if !IsOfficial(scanTypes[0]) then Rejected(scanTypes[0])
    else Validate(scanTypes[1..])
  }

  /** The validation loop of the handler: for each scan type in order, look it
      up in the allow-list and give up at the first miss. */
  method CheckScanTypes(scanTypes: seq<string>) returns (v: Verdict)
    ensures v == Validate(scanTypes)
  {
    var i := 0;
    while i < |scanTypes|
      invariant 0 <= i <= |scanTypes|
      invariant Validate(scanTypes[i..]) == Validate(scanTypes)
    {
      if !IsOfficial(scanTypes[i]) {
        return Rejected(scanTypes[i]);
      }
      assert scanTypes[i..][1..] == scanTypes[i + 1..];
      i := i + 1;
    }
    return Accepted;
  }

  /** A list passes exactly when every element is official; the empty list passes. */
  lemma {:induction false} ValidateAcceptsIffAllOfficial(scanTypes: seq<string>)
    ensures Validate(scanTypes) == Accepted <==> AllOfficial(scanTypes)
  {
    if scanTypes != [] {
      var rest := scanTypes[1..];
      ValidateAcceptsIffAllOfficial(rest);
      assert forall i :: 1 <= i < |scanTypes| ==> scanTypes[i] == rest[i - 1];
    }
  }

  /** Whenever there is a first unofficial scan type, that one is reported. */
  lemma {:induction false} FirstOffenderIsReported(scanTypes: seq<string>, k: int)
    requires FirstOffenderAt(scanTypes, k)
    ensures Validate(scanTypes) == Rejected(scanTypes[k])
  {
    if k > 0 {
      var rest := scanTypes[1..];
      assert IsOfficial(scanTypes[0]);
      assert forall j :: 0 <= j < k - 1 ==> rest[j] == scanTypes[j + 1];
      FirstOffenderIsReported(rest, k - 1);
    }
  }

  /** A rejection always names the first unofficial scan type in list order. */
  lemma {:induction false} RejectionNamesFirstOffender(scanTypes: seq<string>)
    requires Validate(scanTypes).Rejected?
    ensures exists k :: FirstOffenderAt(scanTypes, k) && scanTypes[k] == Validate(scanTypes).scanType
  {
    if IsOfficial(scanTypes[0]) {
      var rest := scanTypes[1..];
      RejectionNamesFirstOffender(rest);
      var k :| FirstOffenderAt(rest, k) && rest[k] == Validate(rest).scanType;
      assert forall j :: 1 <= j < k + 1 ==> scanTypes[j] == rest[j - 1];
      assert FirstOffenderAt(scanTypes, k + 1);
    } else {
      assert FirstOffenderAt(scanTypes, 0);
    }
  }

  /** The sentinel is always on the allow-list. */
  lemma OtherIsOfficial()
    ensures IsOfficial(Other)
  {
  }

  /** A submission made only of "other" entries always passes. */
  lemma {:induction false} OnlyOtherIsAccepted(scanTypes: seq<string>)
    requires forall i :: 0 <= i < |scanTypes| ==> scanTypes[i] == Other
    ensures Validate(scanTypes) == Accepted
  {
    OtherIsOfficial();
    ValidateAcceptsIffAllOfficial(scanTypes);
  }
}
