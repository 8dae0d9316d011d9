/** `POST /assets` and the query filter of `GET /assets`. */
module Assets {
  import opened JsValues
  import opened Mongo
  import opened Documents

  /** The body of `POST /assets`. */
  datatype AssetForm = AssetForm(productName: JsValue, productImage: JsValue, productType: JsValue,
                                 productQuantity: JsValue, hrEmail: JsValue, companyName: JsValue)

  /** The required-field check: name and type truthy, quantity of type "number". */
  predicate AssetFormComplete(f: AssetForm) {
    Truthy(f.productName) && Truthy(f.productType) && f.productQuantity.Num?
  }

  /** `POST /assets`: on success the new asset's id (its position) is returned. */
  function CreateAsset(s: Store, f: AssetForm, now: Time): (o: Outcome<Id>)
    ensures o.reply.Ok? <==> AssetFormComplete(f)
    ensures !o.reply.Ok? ==> o == Outcome(BadRequest("Missing required fields"), s)
    ensures o.reply.Ok? ==>
      && o.reply.body == |s.assets|
      && |o.store.assets| == |s.assets| + 1
      && o.store == s.(assets := s.assets + [o.store.assets[o.reply.body]])
    ensures o.reply.Ok? ==>
      var a := o.store.assets[o.reply.body];
      && a.productQuantity == f.productQuantity.n
      && a.availableQuantity == a.productQuantity
      && Issued(a) == 0
      && a.productName == f.productName && a.productType == f.productType
      && a.productImage == (if Truthy(f.productImage) then f.productImage else Str(""))
      && a.hrEmail == Stored(f.hrEmail) && a.companyName == Stored(f.companyName)
      && a.dateAdded == now
  {
    if !AssetFormComplete(f) then
      Outcome(BadRequest("Missing required fields"), s)
    else
      var q := f.productQuantity.n;
      var a := Asset(f.productName, OrElse(f.productImage, Str("")), f.productType, q, q,
                     Stored(f.hrEmail), Stored(f.companyName), now);
      Outcome(Ok(|s.assets|), s.(assets := s.assets + [a]))
  }

  /** The filter document built by `GET /assets`: a field is constrained only when its
      query parameter is truthy. */
  datatype AssetFilter = AssetFilter(hrEmail: Option<JsValue>, companyName: Option<JsValue>)

  function BuildFilter(hrEmail: JsValue, companyName: JsValue): AssetFilter {
    AssetFilter(if Truthy(hrEmail) then Some(hrEmail) else None,
                if Truthy(companyName) then Some(companyName) else None)
  }

  /** An asset matches when it equals every constrained field. */
  predicate Matches(filter: AssetFilter, a: Asset) {
    && (filter.hrEmail.Some? ==> a.hrEmail == filter.hrEmail.value)
    && (filter.companyName.Some? ==> a.companyName == filter.companyName.value)
  }

  /** `GET /assets?hrEmail=…&companyName=…`: the matching assets with their ids, in
      natural order. */
  method ListAssets(s: Store, hrEmail: JsValue, companyName: JsValue) returns (r: seq<(Id, Asset)>)
    ensures forall k :: 0 <= k < |r| ==> r[k].0 < |s.assets| && r[k].1 == s.assets[r[k].0]
    ensures forall k, l :: 0 <= k < l < |r| ==> r[k].0 < r[l].0
    ensures forall id :: 0 <= id < |s.assets| ==>
      ((id, s.assets[id]) in r <==> Matches(BuildFilter(hrEmail, companyName), s.assets[id]))
    ensures !Truthy(hrEmail) && !Truthy(companyName) ==> |r| == |s.assets|
  {
    var filter := BuildFilter(hrEmail, companyName);
    r := [];
    var i := 0;
    while i < |s.assets|
      invariant 0 <= i <= |s.assets|
      invariant forall k :: 0 <= k < |r| ==> r[k].0 < i && r[k].1 == s.assets[r[k].0]
      invariant forall k, l :: 0 <= k < l < |r| ==> r[k].0 < r[l].0
      invariant forall id :: 0 <= id < i ==> ((id, s.assets[id]) in r <==> Matches(filter, s.assets[id]))
      invariant forall id :: i <= id < |s.assets| ==> (id, s.assets[id]) !in r
      invariant filter.hrEmail.None? && filter.companyName.None? ==> |r| == i
    {
      if Matches(filter, s.assets[i]) {
        r := r + [(i, s.assets[i])];
      }
      i := i + 1;
    }
  }
}
