/**
 * The mobile driving licence card (components/mdlCard.js): attributes are
 * looked up in the `org.iso.18013.5.1` namespace, the mDL data element
 * namespace of ISO/IEC 18013-5 clause 7.
 */
module MdlCard {
  import opened Wrappers
  import opened Js
  import Cards

  const Namespace := "org.iso.18013.5.1"

  /** The keys the card shows, in display order. */
  const Keys := ["given_name", "family_name", "birth_date", "expiry_date", "document_number"]

  /** The namespace object, when `presentation.attributes[Namespace]` exists and is an object. */
  function LicenceNamespace(presentation: Value): Option<map<string, Value>> {
    if presentation.Obj? && "attributes" in presentation.fields
       && presentation.fields["attributes"].Obj?
       && Namespace in presentation.fields["attributes"].fields
       && presentation.fields["attributes"].fields[Namespace].Obj?
    then Some(presentation.fields["attributes"].fields[Namespace].fields)
    else None
  }

  /**
   * `getAttribute`: `presentation?.attributes?.[Namespace]?.[key]`. It never
   * throws; it yields the stored value when every link exists and Undefined
   * as soon as one is missing.
   */
  function GetAttribute(presentation: Value, key: string): (r: Value)
    ensures LicenceNamespace(presentation).Some? && key in LicenceNamespace(presentation).value ==>
              r == LicenceNamespace(presentation).value[key]
    ensures LicenceNamespace(presentation).None? ==> r == Undefined
    ensures LicenceNamespace(presentation).Some? && key !in LicenceNamespace(presentation).value ==>
              r == Undefined
  {
    Chain(Chain(Chain(presentation, "attributes"), Namespace), key)
  }

  /** The values `MdlCard` renders. */
  function View(presentation: Value): (shown: seq<Value>)
    ensures |shown| == |Keys|
    ensures forall i :: 0 <= i < |Keys| ==> shown[i] == GetAttribute(presentation, Keys[i])
  {
    Cards.Card(GetAttribute, presentation, Keys)
  }

  /** Without the attributes or the namespace, every field of the card is absent. */
  lemma ViewOfMissingNamespace(presentation: Value)
    requires LicenceNamespace(presentation).None?
    ensures forall i :: 0 <= i < |Keys| ==> View(presentation)[i] == Undefined
  {
    forall i | 0 <= i < |Keys| ensures View(presentation)[i] == Undefined {
      assert View(presentation)[i] == GetAttribute(presentation, Keys[i]);
    }
  }

  /** The card reads exactly its five keys of the namespace. */
  lemma ViewReadsExactlyKeys(p: Value, q: Value)
    ensures View(p) == View(q) <==>
            forall i :: 0 <= i < |Keys| ==> GetAttribute(p, Keys[i]) == GetAttribute(q, Keys[i])
  {
    Cards.CardDeterminedByKeys(GetAttribute, p, q, Keys);
  }
}
