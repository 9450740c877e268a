/** Enumerations shared by the timeline query builder and the cluster merge. */
module Timeline {

  /** The case database backend; it selects literals and the group-concat function. */
  datatype DbType = SQLite | PostgreSQL

  /** DescriptionLoD: the level of detail of an event description. */
  datatype DescriptionLoD = Full | Medium | Short

  /** TimeUnits: the bucket size of a clustering query; OtherUnit stands for any constant
      of the enumeration the switch in getStrfTimeFormat does not name. */
  datatype TimeUnits = Years | Months | Days | Hours | Minutes | Seconds | OtherUnit

  /** An event type: its index in RootEventType.allTypes (-1 when absent, as indexOf
      returns) and whether it is the root of the type hierarchy. */
  datatype EventType = EventType(typeIndex: int, isRoot: bool)
}
