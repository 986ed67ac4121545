/** The records and constants of the scheduling app: who the user is, what a church
    service and an assignment (a volunteer registered in an area of a service) hold,
    and the fixed list of service areas. */
module Types {
  import opened Seqs

  datatype Role = Admin | Servo

  datatype User = User(id: string, name: string, email: string, avatarUrl: string, role: Role)

  /** The seven Portuguese day names a service can carry. */
  datatype ServiceDay =
    | Domingo | SegundaFeira | TercaFeira | QuartaFeira | QuintaFeira | SextaFeira | Sabado

  /** The text shown for a day name. */
  function DayLabel(d: ServiceDay): string
  {
    match d
    case Domingo => "Domingo"
    case SegundaFeira => "Segunda-feira"
    case TercaFeira => "Terça-feira"
    case QuartaFeira => "Quarta-feira"
    case QuintaFeira => "Quinta-feira"
    case SextaFeira => "Sexta-feira"
    case Sabado => "Sábado"
  }

  /** The closed set of areas a volunteer can serve in. */
  datatype ServiceArea =
    | Recepcao | Cafe | Coluna1 | Coluna2 | AberturaDoCulto | FundoDaIgreja

  /** The string value of an area, as it appears in exports and messages. It is
      never empty and holds neither a comma nor a line break, so an area is always a
      clean cell of the exported CSV and a clean piece of a roster line. */
  function AreaName(a: ServiceArea): (name: string)
    ensures |name| > 0 && ',' !in name && '\n' !in name
  {
    match a
    case Recepcao => "Recepção"
    case Cafe => "Café"
    case Coluna1 => "Coluna 1"
    case Coluna2 => "Coluna 2"
    case AberturaDoCulto => "Abertura do culto"
    case FundoDaIgreja => "Fundo da igreja"
  }

  /** One scheduled meeting. `dayOfWeek` is None where the app stores `undefined`
      (the day-name table indexed with the weekday of a date that does not parse). */
  datatype ChurchService = ChurchService(
    id: string,
    date: string,
    time: string,
    dayOfWeek: Option<ServiceDay>,
    isOpen: bool,
    description: string)

  /** One volunteer registered in one area of one service; `userName` is a copy of
      the user's name taken at registration and editable afterwards. */
  datatype Assignment = Assignment(
    id: string,
    serviceId: string,
    userId: string,
    userName: string,
    area: ServiceArea)

  /** The areas offered when registering, in display order. */
  const ServiceAreas: seq<ServiceArea> :=
    [Recepcao, Cafe, Coluna1, Coluna2, AberturaDoCulto, FundoDaIgreja]

  /** The signed-in user (there is no login in this version of the app). */
  const MockUser: User :=
    User("user-1", "Lucas Silva", "lucas@igreja.org", "https://picsum.photos/seed/lucas/100/100", Admin)

  /** The area list offers every area exactly once. */
  lemma ServiceAreasListEachOnce()
    ensures forall a: ServiceArea :: a in ServiceAreas
    ensures forall i, j :: 0 <= i < j < |ServiceAreas| ==> ServiceAreas[i] != ServiceAreas[j]
    ensures |ServiceAreas| == 6
  {
    forall a: ServiceArea
      ensures a in ServiceAreas
    {
      match a
      case Recepcao => assert ServiceAreas[0] == a;
      case Cafe => assert ServiceAreas[1] == a;
      case Coluna1 => assert ServiceAreas[2] == a;
      case Coluna2 => assert ServiceAreas[3] == a;
      case AberturaDoCulto => assert ServiceAreas[4] == a;
      case FundoDaIgreja => assert ServiceAreas[5] == a;
    }
  }

  /** Distinct areas have distinct names, so an exported name identifies its area. */
  lemma AreaNameInjective(a: ServiceArea, b: ServiceArea)
    requires AreaName(a) == AreaName(b)
    ensures a == b
  {
    match a
    case Recepcao => assert AreaName(a)[0] == 'R';
    case Cafe => assert AreaName(a)[1] == 'a';
    case Coluna1 => assert AreaName(a)[7] == '1';
    case Coluna2 => assert AreaName(a)[7] == '2';
    case AberturaDoCulto => assert AreaName(a)[0] == 'A';
    case FundoDaIgreja => assert AreaName(a)[0] == 'F';
  }
}
