/**
  The entities of the grid: rows (`User`), column descriptors, sort and filter models, pagination,
  and the grid state with its closed set of actions, following `types/grid.types.ts`.

  A row field is read by name, as `row[field as keyof User]` does; a name that is not a field of
  `User` (or an `avatar` the row does not carry) reads as `Undefined`.
*/
module GridTypes {
  import opened Wrappers
  import opened Text

  // ---------------------------------------------------------------------------
  // Rows
  // ---------------------------------------------------------------------------

  datatype Status = Active | Inactive

  /** One row of the dataset. JavaScript numbers are modelled as integers. */
  datatype User = User(
    id: int,
    name: string,
    email: string,
    role: string,
    department: string,
    salary: int,
    joinDate: string,
    status: Status,
    avatar: Option<string>)

  /** A `Partial<User>`: the fields a patch carries replace those of the row. */
  datatype UserPatch = UserPatch(
    id: Option<int>,
    name: Option<string>,
    email: Option<string>,
    role: Option<string>,
    department: Option<string>,
    salary: Option<int>,
    joinDate: Option<string>,
    status: Option<Status>,
    avatar: Option<string>)

  /** A field value as the pipeline sees it: a string, a number, or `undefined`. */
  datatype Value = Str(s: string) | Num(n: int) | Undefined

  function StatusName(s: Status): string {
    match s
    case Active => "active"
    case Inactive => "inactive"
  }

  /** `row[field]` */
  function Field(u: User, field: string): Value {
    if field == "id" then Num(u.id)
    else if field == "name" then Str(u.name)
    else if field == "email" then Str(u.email)
    else if field == "role" then Str(u.role)
    else if field == "department" then Str(u.department)
    else if field == "salary" then Num(u.salary)
    else if field == "joinDate" then Str(u.joinDate)
    else if field == "status" then Str(StatusName(u.status))
    else if field == "avatar" && u.avatar.Some? then Str(u.avatar.value)
    else Undefined
  }

  /** `Object.values(row)`, in the order the fields are declared; an absent `avatar` is not listed. */
  function Values(u: User): seq<Value> {
    [Num(u.id), Str(u.name), Str(u.email), Str(u.role), Str(u.department), Num(u.salary),
     Str(u.joinDate), Str(StatusName(u.status))]
    + (if u.avatar.Some? then [Str(u.avatar.value)] else [])
  }

  /** `String(v)` */
  function Render(v: Value): string {
    match v
    case Str(s) => s
    case Num(n) => IntToString(n)
    case Undefined => "undefined"
  }

  /** `Number(v)`, with NaN as `None` */
  function ToNumber(v: Value): Option<int> {
    match v
    case Str(s) => ParseDecimal(s)
    case Num(n) => Some(n)
    case Undefined => None
  }

  function Pick<T>(patch: Option<T>, current: T): T {
    if patch.Some? then patch.value else current
  }

  /** `{ ...row, ...patch }` */
  function Merge(u: User, p: UserPatch): User {
    User(Pick(p.id, u.id), Pick(p.name, u.name), Pick(p.email, u.email), Pick(p.role, u.role),
         Pick(p.department, u.department), Pick(p.salary, u.salary), Pick(p.joinDate, u.joinDate),
         Pick(p.status, u.status), if p.avatar.Some? then p.avatar else u.avatar)
  }

  // ---------------------------------------------------------------------------
  // Columns, sort model, filter model
  // ---------------------------------------------------------------------------

  datatype ColumnType = TextColumn | NumberColumn | DateColumn | SelectColumn | ActionsColumn

  /** A column descriptor (`header` is the source's `label`); the optional flags of the source are `Option`s (the cell renderer is not modelled). */
  datatype Column = Column(
    id: string,
    header: string,
    kind: ColumnType,
    width: Option<int>,
    minWidth: Option<int>,
    sortable: Option<bool>,
    filterable: Option<bool>,
    resizable: Option<bool>,
    pinnable: Option<bool>,
    visible: Option<bool>)

  datatype Direction = Asc | Desc

  datatype SortKey = SortKey(field: string, sort: Direction)

  /** Sort keys in priority order: the first entry is the primary key. */
  type SortModel = seq<SortKey>

  datatype FilterKind = Contains | Equals | StartsWith | EndsWith | GreaterThan | LessThan

  /** The predicate a filter model holds for the column `field`. */
  datatype FilterEntry = FilterEntry(field: string, kind: FilterKind, value: Value)

  /**
    A filter model: the entries of the JavaScript object in its key order (insertion order),
    one entry per column when `UniqueKeys` holds.
  */
  type FilterModel = seq<FilterEntry>

  /** No column has two entries, as in a JavaScript object. */
  predicate UniqueKeys(filters: FilterModel) {
    forall i, j | 0 <= i < j < |filters| :: filters[i].field != filters[j].field
  }

  // ---------------------------------------------------------------------------
  // Grid state and actions
  // ---------------------------------------------------------------------------

  datatype PaginationState = PaginationState(page: int, pageSize: int, total: int)

  /** A `Partial<PaginationState>` */
  datatype PaginationPatch = PaginationPatch(page: Option<int>, pageSize: Option<int>, total: Option<int>)

  datatype Density = Compact | Standard | Comfortable

  datatype Theme = Light | Dark

  /** The side of a `PIN_COLUMN` action: `"left"`, `"right"` or `"none"`. */
  datatype Side = PinLeft | PinRight | PinNone

  datatype PinnedColumns = PinnedColumns(left: seq<string>, right: seq<string>)

  datatype GridState = GridState(
    data: seq<User>,
    columns: seq<Column>,
    visibleColumns: seq<string>,
    pinnedColumns: PinnedColumns,
    sortModel: SortModel,
    filterModel: FilterModel,
    selectedRows: set<string>,
    pagination: PaginationState,
    loading: bool,
    error: Option<string>,
    searchQuery: string,
    density: Density,
    theme: Theme)

  datatype GridAction =
    | SetData(rows: seq<User>)
    | SetLoading(isLoading: bool)
    | SetError(message: Option<string>)
    | SetColumns(newColumns: seq<Column>)
    | ToggleColumnVisibility(columnId: string)
    | ReorderColumns(fromIndex: int, toIndex: int)
    | PinColumn(columnId: string, side: Side)
    | ResizeColumn(columnId: string, width: int)
    | SetSort(newSortModel: SortModel)
    | SetFilter(newFilterModel: FilterModel)
    | SetSearch(query: string)
    | SelectRow(rowId: string)
    | SelectAllRows(selectAll: bool)
    | SetPagination(patch: PaginationPatch)
    | SetDensity(newDensity: Density)
    | SetTheme(newTheme: Theme)
    | UpdateRow(rowId: string, rowPatch: UserPatch)
}
