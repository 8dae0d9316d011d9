/** The documents of the `assetVerse` database and the store that holds its collections. */
module Documents {
  import opened JsValues
  import opened Mongo

  /** An opaque document id (`ObjectId`). */
  type Id = nat

  /** An opaque `new Date()` value, supplied by the caller. */
  type Time = int

  /** A document of `hrCollections` or of `employeeCollections`. Both kinds share
      name, email, password, date of birth, company name, role and creation time. */
  datatype Account =
    | HrAccount(name: JsValue, companyName: JsValue, companyLogo: JsValue, email: JsValue,
                password: JsValue, dateOfBirth: JsValue, role: string, packageLimit: int,
                currentEmployees: int, subscription: string, createdAt: Time)
    | EmployeeAccount(name: JsValue, email: JsValue, password: JsValue, dateOfBirth: JsValue,
                      role: string, companyName: JsValue, createdAt: Time)

  /** The field the account collections are searched by. */
  function EmailOf(a: Account): JsValue {
    a.email
  }

  /** A document of `assets`. Its `_id` is its position in the collection. */
  datatype Asset = Asset(productName: JsValue, productImage: JsValue, productType: JsValue,
                         productQuantity: int, availableQuantity: int,
                         hrEmail: JsValue, companyName: JsValue, dateAdded: Time)

  /** Units counted in `productQuantity` but not in `availableQuantity`. */
  function Issued(a: Asset): int {
    a.productQuantity - a.availableQuantity
  }

  /** A document of `requests`: the fields the handlers read or write. Requests are
      created outside the modelled handlers. */
  datatype Request = Request(assetId: Id, assetName: JsValue, requesterEmail: JsValue,
                             requesterName: JsValue, hrEmail: JsValue, companyName: JsValue,
                             status: JsValue, processedBy: JsValue, approvalDate: Option<Time>)

  /** A document of `employeeAssets`: one unit handed to one employee. */
  datatype EmployeeAsset = EmployeeAsset(employeeEmail: JsValue, employeeName: JsValue,
                                         assetName: JsValue, assetId: Id, dateAssigned: Time)

  /** A document of `affiliations`: an employee's company. */
  datatype Affiliation = Affiliation(employeeEmail: JsValue, companyName: JsValue, createdAt: Time)

  /** The field the affiliations collection is searched by. */
  function EmployeeEmailOf(f: Affiliation): JsValue {
    f.employeeEmail
  }

  /** The six collections the handlers change. */
  datatype Store = Store(hrs: seq<Account>, employees: seq<Account>, assets: seq<Asset>,
                         requests: map<Id, Request>, employeeAssets: seq<EmployeeAsset>,
                         affiliations: seq<Affiliation>)

  /** The result kinds the handlers answer with, in place of HTTP status codes. */
  datatype Reply<T> =
    | Ok(body: T)                // 200 / 201
    | BadRequest(message: string)   // 400
    | NotFound(message: string)     // 404
    | Unauthorized(message: string) // 401

  /** A handler's reply together with the store it leaves behind. */
  datatype Outcome<T> = Outcome(reply: Reply<T>, store: Store)

  /** `updateOne({_id: id}, {$inc: {productQuantity: dp, availableQuantity: da}})`. */
  function IncQuantities(assets: seq<Asset>, id: Id, dp: int, da: int): (r: seq<Asset>)
    ensures |r| == |assets|
    ensures forall a :: 0 <= a < |assets| && a != id ==> r[a] == assets[a]
    ensures id < |assets| ==> r[id].productQuantity == assets[id].productQuantity + dp
    ensures id < |assets| ==> r[id].availableQuantity == assets[id].availableQuantity + da
    ensures id < |assets| ==> Issued(r[id]) == Issued(assets[id]) + dp - da
    ensures id < |assets| ==>
      r[id].(productQuantity := assets[id].productQuantity,
             availableQuantity := assets[id].availableQuantity) == assets[id]
  {
    if id < |assets| then
      var a := assets[id];
      assets[id := a.(productQuantity := a.productQuantity + dp,
                      availableQuantity := a.availableQuantity + da)]
    else
      assets
  }

  /** The uniqueness the handlers maintain: registration refuses a taken email and the
      affiliation upsert only inserts an absent employee. */
  ghost predicate Valid(s: Store) {
    && UniqueKeys(s.hrs, EmailOf)
    && UniqueKeys(s.employees, EmailOf)
    && UniqueKeys(s.affiliations, EmployeeEmailOf)
  }

  /** Every request names an asset that has been created. Since an asset's id is its position,
      this excludes requests holding an id no insert has issued yet, which a later insert
      would otherwise hand out. */
  ghost predicate RequestsReferenceAssets(s: Store) {
    forall k :: k in s.requests ==> s.requests[k].assetId < |s.assets|
  }

  /** Every asset has as many units available as it has in total. */
  ghost predicate Balanced(s: Store) {
    forall a :: 0 <= a < |s.assets| ==> Issued(s.assets[a]) == 0
  }
}
