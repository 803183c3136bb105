/** The rows of the `employees` and `attendance` tables (models.py). */
module Models {
  import opened Common

  /**
   * One attendance row. `checkIn`, `checkOut` and `date` are timestamps in
   * seconds (all three columns are DateTime columns); `checkOut` is None while
   * the record is open.
   */
  datatype Attendance = Attendance(id: int, employeeId: int, checkIn: int, checkOut: Option<int>, date: int)

  /** One employee row; the face embedding is a JSON string or NULL. */
  datatype Employee = Employee(id: int, name: string, role: string, faceEmbedding: Option<string>)

  /** Python's truth test on `face_embedding`: not NULL and not the empty string. */
  predicate HasEmbedding(e: Employee) {
    e.faceEmbedding.Some? && e.faceEmbedding.value != ""
  }

  /** `get_employee_by_id`: the first employee row with that id, if any. */
  function FindEmployee(employees: seq<Employee>, id: int): (r: Option<Employee>)
    ensures r.Some? ==> r.value in employees && r.value.id == id
    ensures r.None? <==> forall k :: 0 <= k < |employees| ==> employees[k].id != id
  {
    if employees == [] then None
    else if employees[0].id == id then Some(employees[0])
    else FindEmployee(employees[1..], id)
  }
}
