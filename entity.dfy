/** The persisted employee row (entity/employee.go). */
module Entity {

  /** A `time.Time`, kept opaque: only its order matters to the core. */
  type Time = int

  /** The zero `time.Time`. */
  const ZeroTime: Time := 0

  datatype Employee = Employee(
    id: nat,            // uint primary key; 0 means "not yet assigned"
    createdAt: Time,
    updatedAt: Time,
    firstName: string,
    lastName: string,
    email: string,
    hireDate: Time)

  /** The zero value `entity.Employee{}`. */
  const ZeroEmployee: Employee := Employee(0, ZeroTime, ZeroTime, "", "", "", ZeroTime)
}
