/** The response messages the handlers build (the generated protobuf types). */
module Proto {

  datatype RoleInfo = RoleInfo(id: int, name: string)

  datatype ServiceInfo = ServiceInfo(id: int, name: string)

  datatype UserInfo = UserInfo(id: int, name: string, email: string, roles: seq<RoleInfo>)

  /** One grant of a service, joined with its service and its role. */
  datatype PermissionInfo = PermissionInfo(
    id: int,
    service: ServiceInfo,
    role: RoleInfo,
    canRead: bool,
    canWrite: bool,
    canManage: bool)
}
