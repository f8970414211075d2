/**
 * The verifiable-credential card (components/vpCard.js): attributes are the
 * claims under `vc.credentialSubject` of a decoded credential.
 */
module VpCard {
  import opened Wrappers
  import opened Js
  import Cards

  /** The keys the card shows, in display order. */
  const Keys := ["givenName", "familyName", "condition", "diagnosisDate", "medicalProviderName",
                 "medicalProviderLicenceNumber", "medicalProviderLicenceType", "licensingAuthority"]

  /** The claims object, when `presentation.vc.credentialSubject` exists and is an object. */
  function CredentialSubject(presentation: Value): Option<map<string, Value>> {
    if presentation.Obj? && "vc" in presentation.fields
       && presentation.fields["vc"].Obj?
       && "credentialSubject" in presentation.fields["vc"].fields
       && presentation.fields["vc"].fields["credentialSubject"].Obj?
    then Some(presentation.fields["vc"].fields["credentialSubject"].fields)
    else None
  }

  /**
   * `getAttribute`: `presentation?.vc?.credentialSubject?.[key]`. It never
   * throws; it yields the claim when every link exists and Undefined as soon
   * as one is missing. (Its `console.log` is not modelled.)
   */
  function GetAttribute(presentation: Value, key: string): (r: Value)
    ensures CredentialSubject(presentation).Some? && key in CredentialSubject(presentation).value ==>
              r == CredentialSubject(presentation).value[key]
    ensures CredentialSubject(presentation).None? ==> r == Undefined
    ensures CredentialSubject(presentation).Some? && key !in CredentialSubject(presentation).value ==>
              r == Undefined
  {
    Chain(Chain(Chain(presentation, "vc"), "credentialSubject"), key)
  }

  /** The values `VpCard` renders. */
  function View(presentation: Value): (shown: seq<Value>)
    ensures |shown| == |Keys|
    ensures forall i :: 0 <= i < |Keys| ==> shown[i] == GetAttribute(presentation, Keys[i])
  {
    Cards.Card(GetAttribute, presentation, Keys)
  }

  /** Without `vc` or `vc.credentialSubject`, every field of the card is absent. */
  lemma ViewOfMissingSubject(presentation: Value)
    requires CredentialSubject(presentation).None?
    ensures forall i :: 0 <= i < |Keys| ==> View(presentation)[i] == Undefined
  {
    forall i | 0 <= i < |Keys| ensures View(presentation)[i] == Undefined {
      assert View(presentation)[i] == GetAttribute(presentation, Keys[i]);
    }
  }

  /** The card reads exactly its eight claims. */
  lemma ViewReadsExactlyKeys(p: Value, q: Value)
    ensures View(p) == View(q) <==>
            forall i :: 0 <= i < |Keys| ==> GetAttribute(p, Keys[i]) == GetAttribute(q, Keys[i])
  {
    Cards.CardDeterminedByKeys(GetAttribute, p, q, Keys);
  }
}
