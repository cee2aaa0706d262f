/** Request, filter and result shapes (model/employee.go and the page request it embeds). */
module Model {

  import opened Wrappers
  import opened GoInt
  import opened Entity

  datatype PageRequest = PageRequest(pageNum: Int64, pageSize: Int64)

  /** Filter of the list endpoint; `id` is the optional `*int`. */
  datatype GetEmployeesFilter = GetEmployeesFilter(
    firstName: string,
    lastName: string,
    id: Option<Int64>,
    pageRequest: PageRequest)

  /** The field set shared by every result shape. */
  datatype EmployeeResult = EmployeeResult(
    id: Int64,
    createdAt: Time,
    updatedAt: Time,
    hireDate: Time,
    firstName: string,
    lastName: string,
    email: string)

  type GetEmployeesResult = EmployeeResult
  type CreateEmployeeResult = EmployeeResult
  type GetEmployeeByIDResult = EmployeeResult
  type EditEmployeeResult = EmployeeResult

  /** `HireDate` arrives as text; its conversion to a time is a parameter of the service. */
  datatype CreateEmployeeRequest = CreateEmployeeRequest(
    firstName: string,
    lastName: string,
    email: string,
    hireDate: string)

  datatype GetEmployeeByIDRequest = GetEmployeeByIDRequest(employeeID: Int64)

  datatype DeleteEmployeeByIDRequest = DeleteEmployeeByIDRequest(employeeID: Int64)

  datatype EditEmployeeRequest = EditEmployeeRequest(
    employeeID: Int64,
    firstName: string,
    lastName: string,
    email: string,
    hireDate: string)
}
