/**
 * The administrators' employee list: toggling the services an employee
 * offers, staging role changes for searched users and saving them, and the
 * guards of adding and deleting an employee. Every server request is
 * reduced to whether it is made and whether it is accepted; the lists the
 * server sends back afterwards are not part of this model.
 */
module EmployeesSection {

  import opened Options

  /** A service an employee offers: `{service_id, service_name}`. */
  datatype ServiceRef = ServiceRef(serviceId: int, serviceName: string)

  /** A service of the catalogue. */
  datatype Service = Service(id: int, name: string)

  datatype Employee = Employee(id: int, firstName: string, lastName: string, role: int, services: seq<ServiceRef>)

  /** A user found by the search; a saved role with nothing staged leaves
      the role undefined. */
  datatype User = User(id: int, firstName: string, lastName: string, role: Option<int>)

  // ---------------------------------------------------------------------
  // Toggling a service
  // ---------------------------------------------------------------------

  /** `services.some(s => s.service_id === serviceId)` */
  function HasService(services: seq<ServiceRef>, serviceId: int): (has: bool)
    ensures has <==> exists k :: 0 <= k < |services| && services[k].serviceId == serviceId
  {
    if services == [] then false
    else HasService(services[..|services| - 1], serviceId) || services[|services| - 1].serviceId == serviceId
  }

  /** `services.filter(s => s.service_id !== serviceId)` */
  function WithoutService(services: seq<ServiceRef>, serviceId: int): (r: seq<ServiceRef>)
    ensures |r| <= |services|
  {
    if services == [] then []
    else WithoutService(services[..|services| - 1], serviceId)
         + (if services[|services| - 1].serviceId != serviceId then [services[|services| - 1]] else [])
  }

  /** `allServices?.find(s => s.id === serviceId)`: the first catalogue
      entry with that id, if the catalogue is loaded and holds one. */
  function FindService(allServices: Option<seq<Service>>, serviceId: int): (found: Option<Service>)
    ensures found.Some? <==> allServices.Some? && exists k :: 0 <= k < |allServices.value| && allServices.value[k].id == serviceId
    ensures found.Some? ==> found.value.id == serviceId && found.value in allServices.value
  {
    match allServices
    case None => None
    case Some(all) => FindFirst(all, serviceId)
  }

  function FindFirst(all: seq<Service>, serviceId: int): (found: Option<Service>)
    ensures found.Some? <==> exists k :: 0 <= k < |all| && all[k].id == serviceId
    ensures found.Some? ==> exists k :: 0 <= k < |all| && all[k] == found.value && all[k].id == serviceId
                              && forall i :: 0 <= i < k ==> all[i].id != serviceId
  {
    if all == [] then None
    else if all[0].id == serviceId then Some(all[0])
    else
      var rest := FindFirst(all[1..], serviceId);
      assert forall k :: 0 < k < |all| ==> all[k] == all[1..][k - 1];
      rest
  }

  /** An employee's services after one toggle: without the service when it
      is offered, else with the catalogue's entry for it appended (nothing
      when the catalogue has none). */
  function ToggledServices(services: seq<ServiceRef>, allServices: Option<seq<Service>>, serviceId: int): seq<ServiceRef>
  {
    if HasService(services, serviceId) then WithoutService(services, serviceId)
    else
      match FindService(allServices, serviceId)
      case Some(s) => services + [ServiceRef(s.id, s.name)]
      case None => services
  }

  /** `handleServiceToggle`'s update of the employee list: only the employees
      with the given id have their services toggled. */
  function ToggleService(employees: seq<Employee>, allServices: Option<seq<Service>>, employeeId: int, serviceId: int)
    : (r: seq<Employee>)
    ensures |r| == |employees|
    ensures forall k :: 0 <= k < |employees| && employees[k].id != employeeId ==> r[k] == employees[k]
    ensures forall k :: 0 <= k < |employees| && employees[k].id == employeeId ==>
              r[k] == employees[k].(services := ToggledServices(employees[k].services, allServices, serviceId))
  {
    seq(|employees|, k requires 0 <= k < |employees| =>
      if employees[k].id == employeeId
      then employees[k].(services := ToggledServices(employees[k].services, allServices, serviceId))
      else employees[k])
  }

  /** Toggling an offered service removes every entry with its id and keeps
      every other entry. */
  lemma ToggleRemoves(services: seq<ServiceRef>, allServices: Option<seq<Service>>, serviceId: int)
    requires HasService(services, serviceId)
    ensures forall s :: s in ToggledServices(services, allServices, serviceId) <==>
              s in services && s.serviceId != serviceId
    ensures !HasService(ToggledServices(services, allServices, serviceId), serviceId)
  {
    WithoutServiceMembers(services, serviceId);
  }

  /** Toggling a service that is not offered appends exactly the
      catalogue's entry for it, or changes nothing when the id is unknown. */
  lemma ToggleAdds(services: seq<ServiceRef>, allServices: Option<seq<Service>>, serviceId: int)
    requires !HasService(services, serviceId)
    ensures FindService(allServices, serviceId).Some? ==>
              var s := FindService(allServices, serviceId).value;
              ToggledServices(services, allServices, serviceId) == services + [ServiceRef(serviceId, s.name)]
              && s in allServices.value
    ensures FindService(allServices, serviceId).None? ==>
              ToggledServices(services, allServices, serviceId) == services
  {
  }

  /** Filtering out an id no entry has changes nothing. */
  lemma {:induction false} WithoutAbsent(services: seq<ServiceRef>, serviceId: int)
    requires !HasService(services, serviceId)
    ensures WithoutService(services, serviceId) == services
    decreases |services|
  {
    if services != [] {
      var n := |services| - 1;
      assert services[..n] + [services[n]] == services;
      WithoutAbsent(services[..n], serviceId);
    }
  }

  /** The entries kept are exactly those with another service id. */
  lemma {:induction false} WithoutServiceMembers(services: seq<ServiceRef>, serviceId: int)
    ensures forall s :: s in WithoutService(services, serviceId) <==> s in services && s.serviceId != serviceId
    decreases |services|
  {
    if services != [] {
      var n := |services| - 1;
      WithoutServiceMembers(services[..n], serviceId);
      assert services == services[..n] + [services[n]];
    }
  }

  /** The filter extended by one entry keeps that entry exactly when its id
      differs. */
  lemma WithoutServiceSnoc(xs: seq<ServiceRef>, x: ServiceRef, serviceId: int)
    ensures WithoutService(xs + [x], serviceId) == WithoutService(xs, serviceId) + (if x.serviceId != serviceId then [x] else [])
  {
    assert (xs + [x])[..|xs|] == xs;
  }

  /** The filter distributes over concatenation, so it keeps the kept
      entries in their order. */
  lemma {:induction false} WithoutServiceConcat(xs: seq<ServiceRef>, ys: seq<ServiceRef>, serviceId: int)
    ensures WithoutService(xs + ys, serviceId) == WithoutService(xs, serviceId) + WithoutService(ys, serviceId)
    decreases |ys|
  {
    if ys == [] {
      assert xs + ys == xs;
    } else {
      var n := |ys| - 1;
      assert xs + ys == (xs + ys[..n]) + [ys[n]];
      assert ys == ys[..n] + [ys[n]];
      WithoutServiceSnoc(xs + ys[..n], ys[n], serviceId);
      WithoutServiceSnoc(ys[..n], ys[n], serviceId);
      WithoutServiceConcat(xs, ys[..n], serviceId);
    }
  }

  /** A kept entry occurs as often as in the input, a removed one not at all. */
  lemma {:induction false} WithoutServiceCount(services: seq<ServiceRef>, serviceId: int)
    ensures forall s :: multiset(WithoutService(services, serviceId))[s] ==
              if s.serviceId != serviceId then multiset(services)[s] else 0
    decreases |services|
  {
    if services != [] {
      var n := |services| - 1;
      WithoutServiceCount(services[..n], serviceId);
      assert services == services[..n] + [services[n]];
    }
  }

  /** Toggling a known service off and on again restores the list. */
  lemma ToggleTwice(services: seq<ServiceRef>, allServices: Option<seq<Service>>, serviceId: int)
    requires !HasService(services, serviceId)
    requires FindService(allServices, serviceId).Some?
    ensures ToggledServices(ToggledServices(services, allServices, serviceId), allServices, serviceId) == services
  {
    var s := FindService(allServices, serviceId).value;
    var once := services + [ServiceRef(s.id, s.name)];
    assert once[|once| - 1].serviceId == serviceId;
    assert HasService(once, serviceId);
    assert once[..|once| - 1] == services;
    WithoutAbsent(services, serviceId);
  }

  // ---------------------------------------------------------------------
  // Roles
  // ---------------------------------------------------------------------

  /** `handleRoleChange`'s update: the user's staged role is set, every other
      staged role is kept. */
  function RoleChange(modifiedRoles: map<int, int>, userId: int, newRole: int): (r: map<int, int>)
    ensures r.Keys == modifiedRoles.Keys + {userId}
    ensures r[userId] == newRole
    ensures forall u :: u in modifiedRoles && u != userId ==> r[u] == modifiedRoles[u]
  {
    modifiedRoles[userId := newRole]
  }

  /** The role a save gives the user: the staged one, or undefined when
      none is staged. */
  function StagedRole(modifiedRoles: map<int, int>, userId: int): Option<int>
  {
    if userId in modifiedRoles then Some(modifiedRoles[userId]) else None
  }

  /** `handleSaveRole`'s update of the search results: only the users with
      that id take the staged role. */
  function SavedRoles(users: seq<User>, modifiedRoles: map<int, int>, userId: int): (r: seq<User>)
    ensures |r| == |users|
    ensures forall k :: 0 <= k < |users| ==>
              r[k].id == users[k].id && r[k].firstName == users[k].firstName && r[k].lastName == users[k].lastName
    ensures forall k :: 0 <= k < |users| && users[k].id != userId ==> r[k] == users[k]
    ensures forall k :: 0 <= k < |users| && users[k].id == userId ==> r[k].role == StagedRole(modifiedRoles, userId)
  {
    seq(|users|, k requires 0 <= k < |users| =>
      if users[k].id == userId then users[k].(role := StagedRole(modifiedRoles, userId)) else users[k])
  }

  /** Staging a role and saving it gives the user exactly that role. */
  lemma ChangeThenSave(users: seq<User>, modifiedRoles: map<int, int>, userId: int, newRole: int)
    ensures forall k :: 0 <= k < |users| && users[k].id == userId ==>
              SavedRoles(users, RoleChange(modifiedRoles, userId, newRole), userId)[k].role == Some(newRole)
  {
  }

  // ---------------------------------------------------------------------
  // The section's state
  // ---------------------------------------------------------------------

  class Section {
    var employees: seq<Employee>
    /** Staged roles by user id. */
    var modifiedRoles: map<int, int>
    var deletingEmployeeId: Option<int>
    var showSearchModal: bool
    var searchFirstName: string
    var searchLastName: string
    var searchResults: seq<User>
    /** The add form's names. */
    var newFirstName: string
    var newLastName: string

    constructor ()
      ensures employees == [] && modifiedRoles == map[] && deletingEmployeeId.None?
      ensures !showSearchModal && searchFirstName == "" && searchLastName == "" && searchResults == []
      ensures newFirstName == "" && newLastName == ""
    {
      employees := [];
      modifiedRoles := map[];
      deletingEmployeeId := None;
      showSearchModal := false;
      searchFirstName := "";
      searchLastName := "";
      searchResults := [];
      newFirstName := "";
      newLastName := "";
    }

    /** `handleServiceToggle`, with the catalogue it was created with. */
    method HandleServiceToggle(allServices: Option<seq<Service>>, employeeId: int, serviceId: int)
      modifies this
      ensures employees == ToggleService(old(employees), allServices, employeeId, serviceId)
      ensures modifiedRoles == old(modifiedRoles) && deletingEmployeeId == old(deletingEmployeeId)
      ensures searchResults == old(searchResults) && showSearchModal == old(showSearchModal)
      ensures searchFirstName == old(searchFirstName) && searchLastName == old(searchLastName)
      ensures newFirstName == old(newFirstName) && newLastName == old(newLastName)
    {
      employees := ToggleService(employees, allServices, employeeId, serviceId);
    }

    /** `handleRoleChange`: stage a role for one user. */
    method HandleRoleChange(userId: int, newRole: int)
      modifies this
      ensures modifiedRoles == RoleChange(old(modifiedRoles), userId, newRole)
      ensures employees == old(employees) && deletingEmployeeId == old(deletingEmployeeId)
      ensures searchResults == old(searchResults) && showSearchModal == old(showSearchModal)
      ensures searchFirstName == old(searchFirstName) && searchLastName == old(searchLastName)
      ensures newFirstName == old(newFirstName) && newLastName == old(newLastName)
    {
      modifiedRoles := RoleChange(modifiedRoles, userId, newRole);
    }

    /** `handleSaveRole`: when the server accepts the role, the user's search
        result takes the staged role and the staged entry is dropped; when it
        does not, nothing changes. */
    method HandleSaveRole(userId: int, accepted: bool)
      modifies this
      ensures accepted ==> searchResults == SavedRoles(old(searchResults), old(modifiedRoles), userId)
                           && modifiedRoles == old(modifiedRoles) - {userId}
      ensures !accepted ==> searchResults == old(searchResults) && modifiedRoles == old(modifiedRoles)
      ensures employees == old(employees) && deletingEmployeeId == old(deletingEmployeeId)
      ensures showSearchModal == old(showSearchModal)
      ensures searchFirstName == old(searchFirstName) && searchLastName == old(searchLastName)
      ensures newFirstName == old(newFirstName) && newLastName == old(newLastName)
    {
      if !accepted {
        return;
      }
      searchResults := SavedRoles(searchResults, modifiedRoles, userId);
      var newState := modifiedRoles;
      newState := newState - {userId};
      modifiedRoles := newState;
    }

    /** `handleAddEmployee`'s guard: a request is made only when both names
        are filled in. Its success path calls a setter this section does not
        define, so the form is never reset and no local state changes. */
    method HandleAddEmployee() returns (requested: bool)
      ensures requested <==> newFirstName != "" && newLastName != ""
    {
      if newFirstName == "" || newLastName == "" {
        return false;
      }
      requested := true;
    }

    /** The delete button: the employee awaits confirmation. */
    method HandleDelete(id: int)
      modifies this
      ensures deletingEmployeeId == Some(id)
      ensures employees == old(employees) && modifiedRoles == old(modifiedRoles)
      ensures searchResults == old(searchResults) && showSearchModal == old(showSearchModal)
      ensures searchFirstName == old(searchFirstName) && searchLastName == old(searchLastName)
      ensures newFirstName == old(newFirstName) && newLastName == old(newLastName)
    {
      deletingEmployeeId := Some(id);
    }

    /** `confirmDelete`: with no pending id (an id of 0 counts as none) it
        does nothing; otherwise it requests the deletion and clears the
        pending id whether or not the server accepts. */
    method ConfirmDelete() returns (requested: bool)
      modifies this
      ensures requested <==> old(deletingEmployeeId).Some? && old(deletingEmployeeId).value != 0
      ensures requested ==> deletingEmployeeId.None?
      ensures !requested ==> deletingEmployeeId == old(deletingEmployeeId)
      ensures employees == old(employees) && modifiedRoles == old(modifiedRoles)
      ensures searchResults == old(searchResults) && showSearchModal == old(showSearchModal)
      ensures searchFirstName == old(searchFirstName) && searchLastName == old(searchLastName)
      ensures newFirstName == old(newFirstName) && newLastName == old(newLastName)
    {
      if deletingEmployeeId.None? || deletingEmployeeId.value == 0 {
        return false;
      }
      requested := true;
      deletingEmployeeId := None;
    }

    /** The confirmation's cancel button. */
    method CancelDelete()
      modifies this
      ensures deletingEmployeeId.None?
      ensures employees == old(employees) && modifiedRoles == old(modifiedRoles)
      ensures searchResults == old(searchResults) && showSearchModal == old(showSearchModal)
      ensures searchFirstName == old(searchFirstName) && searchLastName == old(searchLastName)
      ensures newFirstName == old(newFirstName) && newLastName == old(newLastName)
    {
      deletingEmployeeId := None;
    }

    /** `handleSearchUsers`' outcome: the users found, or none when the
        search fails. */
    method ReceiveSearchResults(found: Option<seq<User>>)
      modifies this
      ensures searchResults == (if found.Some? then found.value else [])
      ensures employees == old(employees) && modifiedRoles == old(modifiedRoles)
      ensures deletingEmployeeId == old(deletingEmployeeId) && showSearchModal == old(showSearchModal)
      ensures searchFirstName == old(searchFirstName) && searchLastName == old(searchLastName)
      ensures newFirstName == old(newFirstName) && newLastName == old(newLastName)
    {
      if found.Some? {
        searchResults := found.value;
      } else {
        searchResults := [];
      }
    }

    /** `handleCloseSearch`: the search dialog closes, its fields and results
        are cleared and every staged role is discarded. */
    method CloseSearch()
      modifies this
      ensures !showSearchModal && searchFirstName == "" && searchLastName == ""
      ensures searchResults == [] && modifiedRoles == map[]
      ensures employees == old(employees) && deletingEmployeeId == old(deletingEmployeeId)
      ensures newFirstName == old(newFirstName) && newLastName == old(newLastName)
    {
      showSearchModal := false;
      searchFirstName := "";
      searchLastName := "";
      searchResults := [];
      modifiedRoles := map[];
    }
  }
}
