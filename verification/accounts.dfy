/** HR and employee registration, login, and removal of an employee. */
module Accounts {
  import opened JsValues
  import opened Mongo
  import opened Documents

  /** The body of `POST /register/hr`. */
  datatype HrForm = HrForm(name: JsValue, companyName: JsValue, email: JsValue, password: JsValue,
                           dateOfBirth: JsValue, companyLogo: JsValue)

  /** The body of `POST /register/employee`. */
  datatype EmployeeForm = EmployeeForm(name: JsValue, email: JsValue, password: JsValue,
                                       dateOfBirth: JsValue, companyName: JsValue)

  /** Which account collection a login consults. */
  datatype Role = Hr | Employee

  function Users(s: Store, role: Role): seq<Account> {
    match role
    case Hr => s.hrs
    case Employee => s.employees
  }

  predicate HrFormComplete(f: HrForm) {
    Truthy(f.name) && Truthy(f.companyName) && Truthy(f.email) && Truthy(f.password) && Truthy(f.dateOfBirth)
  }

  predicate EmployeeFormComplete(f: EmployeeForm) {
    Truthy(f.name) && Truthy(f.email) && Truthy(f.password) && Truthy(f.dateOfBirth) && Truthy(f.companyName)
  }

  /** `POST /register/hr`. */
  function RegisterHr(s: Store, f: HrForm, now: Time): (o: Outcome<Account>)
    ensures o.reply.Ok? <==> HrFormComplete(f) && !HasKey(s.hrs, EmailOf, f.email)
    ensures !HrFormComplete(f) ==> o == Outcome(BadRequest("All fields are required"), s)
    ensures HrFormComplete(f) && HasKey(s.hrs, EmailOf, f.email) ==>
      o == Outcome(BadRequest("Email already registered"), s)
    ensures o.reply.Ok? ==> o.store == s.(hrs := s.hrs + [o.reply.body])
    ensures o.reply.Ok? ==>
      var u := o.reply.body;
      && u.HrAccount?
      && u.name == f.name && u.companyName == f.companyName && u.email == f.email
      && u.password == f.password && u.dateOfBirth == f.dateOfBirth
      && u.companyLogo == (if Truthy(f.companyLogo) then f.companyLogo else Str(""))
      && u.role == "hr" && u.packageLimit == 5 && u.currentEmployees == 0
      && u.subscription == "basic" && u.createdAt == now
  {
    if !HrFormComplete(f) then
      Outcome(BadRequest("All fields are required"), s)
    else if FindOne(s.hrs, EmailOf, f.email).Some? then
      Outcome(BadRequest("Email already registered"), s)
    else
      var u := HrAccount(f.name, f.companyName, OrElse(f.companyLogo, Str("")), f.email, f.password,
                         f.dateOfBirth, "hr", 5, 0, "basic", now);
      Outcome(Ok(u), s.(hrs := s.hrs + [u]))
  }

  /** `POST /register/employee`. */
  function RegisterEmployee(s: Store, f: EmployeeForm, now: Time): (o: Outcome<Account>)
    ensures o.reply.Ok? <==> EmployeeFormComplete(f) && !HasKey(s.employees, EmailOf, f.email)
    ensures !EmployeeFormComplete(f) ==> o == Outcome(BadRequest("All fields are required"), s)
    ensures EmployeeFormComplete(f) && HasKey(s.employees, EmailOf, f.email) ==>
      o == Outcome(BadRequest("Email already registered"), s)
    ensures o.reply.Ok? ==> o.store == s.(employees := s.employees + [o.reply.body])
    ensures o.reply.Ok? ==>
      var u := o.reply.body;
      && u.EmployeeAccount?
      && u.name == f.name && u.email == f.email && u.password == f.password
      && u.dateOfBirth == f.dateOfBirth && u.companyName == f.companyName
      && u.role == "employee" && u.createdAt == now
  {
    if !EmployeeFormComplete(f) then
      Outcome(BadRequest("All fields are required"), s)
    else if FindOne(s.employees, EmailOf, f.email).Some? then
      Outcome(BadRequest("Email already registered"), s)
    else
      var u := EmployeeAccount(f.name, f.email, f.password, f.dateOfBirth, "employee", f.companyName, now);
      Outcome(Ok(u), s.(employees := s.employees + [u]))
  }

  /** `POST /login/hr` and `POST /login/employee`: the first account with the email is
      fetched and its password compared with `!==`. */
  function Login(s: Store, role: Role, email: JsValue, password: JsValue): (r: Reply<Account>)
    ensures r.BadRequest? <==> !Truthy(email) || !Truthy(password)
    ensures r.BadRequest? ==> r.message == "Email & password required"
    ensures Truthy(email) && Truthy(password) && !HasKey(Users(s, role), EmailOf, email) ==>
      r == Unauthorized("User not found")
    ensures Truthy(email) && Truthy(password) && HasKey(Users(s, role), EmailOf, email) ==>
      var first := Users(s, role)[FindOne(Users(s, role), EmailOf, email).value];
      && (r.Ok? <==> first.password == password)
      && (r.Ok? ==> r.body == first)
      && (!r.Ok? ==> r == Unauthorized("Wrong password"))
  {
    if !Truthy(email) || !Truthy(password) then
      BadRequest("Email & password required")
    else
      match FindOne(Users(s, role), EmailOf, email)
      case None => Unauthorized("User not found")
      case Some(i) =>
        var u := Users(s, role)[i];
        if u.password != password then Unauthorized("Wrong password") else Ok(u)
  }

  /** `DELETE /hr/employees/:email`: deletes the first employee account with the email.
      Assignments and affiliations are left as they are. */
  function RemoveEmployee(s: Store, email: string): (o: Outcome<()>)
    ensures o.reply.NotFound? <==> !HasKey(s.employees, EmailOf, Str(email))
    ensures o.reply.NotFound? ==> o == Outcome(NotFound("Employee not found"), s)
    ensures !o.reply.NotFound? ==> o.reply == Ok(())
    ensures o.store == s.(employees := o.store.employees)
    ensures o.reply.Ok? ==> |o.store.employees| + 1 == |s.employees|
    ensures o.reply.Ok? ==>
      exists j :: 0 <= j < |s.employees| && EmailOf(s.employees[j]) == Str(email)
               && multiset(o.store.employees) + multiset{s.employees[j]} == multiset(s.employees)
    ensures o.reply.Ok? ==>
      var i := FindOne(s.employees, EmailOf, Str(email)).value;
      o.store.employees == s.employees[..i] + s.employees[i + 1..]
  {
    var (rest, deleted) := DeleteOne(s.employees, EmailOf, Str(email));
    if deleted == 0 then
      Outcome(NotFound("Employee not found"), s)
    else
      Outcome(Ok(()), s.(employees := rest))
  }

  /** With distinct emails, login succeeds exactly when some account holds both the email
      and the password. */
  lemma LoginSucceedsIff(s: Store, role: Role, email: JsValue, password: JsValue)
    requires UniqueKeys(Users(s, role), EmailOf)
    ensures Login(s, role, email, password).Ok? <==>
      && Truthy(email) && Truthy(password)
      && exists j :: 0 <= j < |Users(s, role)| && Users(s, role)[j].email == email
                     && Users(s, role)[j].password == password
  {
  }

  /** A successful registration can be logged into with the same email and password. */
  lemma RegisterHrThenLogin(s: Store, f: HrForm, now: Time)
    requires RegisterHr(s, f, now).reply.Ok?
    ensures Login(RegisterHr(s, f, now).store, Hr, f.email, f.password) == RegisterHr(s, f, now).reply
  {
    var u := RegisterHr(s, f, now).reply.body;
    AppendFreshFound(s.hrs, EmailOf, u);
  }

  /** A successful registration can be logged into with the same email and password. */
  lemma RegisterEmployeeThenLogin(s: Store, f: EmployeeForm, now: Time)
    requires RegisterEmployee(s, f, now).reply.Ok?
    ensures Login(RegisterEmployee(s, f, now).store, Employee, f.email, f.password)
            == RegisterEmployee(s, f, now).reply
  {
    var u := RegisterEmployee(s, f, now).reply.body;
    AppendFreshFound(s.employees, EmailOf, u);
  }

  /** Submitting the same HR form twice registers one account: the second attempt is
      refused and changes nothing. */
  lemma RegisterHrTwice(s: Store, f: HrForm, t1: Time, t2: Time)
    requires HrFormComplete(f)
    ensures var s1 := RegisterHr(s, f, t1).store;
            RegisterHr(s1, f, t2) == Outcome(BadRequest("Email already registered"), s1)
  {
    var o := RegisterHr(s, f, t1);
    if o.reply.Ok? {
      assert o.store.hrs[|s.hrs|].email == f.email;
    }
  }

  /** Submitting the same employee form twice registers one account. */
  lemma RegisterEmployeeTwice(s: Store, f: EmployeeForm, t1: Time, t2: Time)
    requires EmployeeFormComplete(f)
    ensures var s1 := RegisterEmployee(s, f, t1).store;
            RegisterEmployee(s1, f, t2) == Outcome(BadRequest("Email already registered"), s1)
  {
    var o := RegisterEmployee(s, f, t1);
    if o.reply.Ok? {
      assert o.store.employees[|s.employees|].email == f.email;
    }
  }

  /** With distinct emails, a removed employee can no longer log in, and removing them
      again reports not found. */
  lemma RemoveThenLoginFails(s: Store, email: string, password: JsValue)
    requires UniqueKeys(s.employees, EmailOf)
    requires email != "" && Truthy(password)
    ensures var s1 := RemoveEmployee(s, email).store;
            && Login(s1, Employee, Str(email), password) == Unauthorized("User not found")
            && RemoveEmployee(s1, email) == Outcome(NotFound("Employee not found"), s1)
  {
    DeletePreservesUnique(s.employees, EmailOf, Str(email));
  }

  /** HR registration keeps HR emails distinct. */
  lemma RegisterHrPreservesValid(s: Store, f: HrForm, now: Time)
    requires Valid(s)
    ensures Valid(RegisterHr(s, f, now).store)
  {
  }

  /** Employee registration keeps employee emails distinct. */
  lemma RegisterEmployeePreservesValid(s: Store, f: EmployeeForm, now: Time)
    requires Valid(s)
    ensures Valid(RegisterEmployee(s, f, now).store)
  {
  }

  /** Removal keeps emails distinct. */
  lemma RemovePreservesValid(s: Store, email: string)
    requires Valid(s)
    ensures Valid(RemoveEmployee(s, email).store)
  {
  }
}
