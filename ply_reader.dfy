// The request registry of the .ply reader: a client asks for elements of the file (with the
// callbacks that receive them) and for properties of those elements (with the type and offset
// at which each value is to be stored); parsing then serves exactly what was requested.
module PlyReaders {
  import opened Wrappers

  /** A property declared in the header of the file: a scalar or a list. */
  datatype PropertyDecl = PropertyDecl(name: string, isList: bool)

  /** An element declared in the header of the file, with its properties in order. */
  datatype ElementDecl = ElementDecl(name: string, properties: seq<PropertyDecl>)

  /** The header of the file, elements in order. */
  type Header = seq<ElementDecl>

  /** The ply library's types for receiving data, PLY_START_TYPE (0) to PLY_DOUBLE (8). */
  datatype PlyType = PlyStartType | PlyChar | PlyShort | PlyInt
                   | PlyUChar | PlyUShort | PlyUInt | PlyFloat | PlyDouble

  /** The library's number for each of its types. */
  function LibraryCode(t: PlyType): int {
    match t
      case PlyStartType => 0
      case PlyChar => 1
      case PlyShort => 2
      case PlyInt => 3
      case PlyUChar => 4
      case PlyUShort => 5
      case PlyUInt => 6
      case PlyFloat => 7
      case PlyDouble => 8
  }

  /** The lookup types[code] in the reader's translation table from its own type codes
      (TYPE_INVALID = 0 up to TYPE_DOUBLE = 8) to the library's types. The table is an
      unordered_map, so a code it was not filled with is inserted with the value 0, which is
      PLY_START_TYPE. */
  function PlyTypeOf(code: int): (r: PlyType)
    ensures 0 <= code <= 8 ==> LibraryCode(r) == code
    ensures !(0 <= code <= 8) ==> r == PlyStartType
    ensures r == PlyStartType <==> !(1 <= code <= 8)
  {
    match code
      case 1 => PlyChar
      case 2 => PlyShort
      case 3 => PlyInt
      case 4 => PlyUChar
      case 5 => PlyUShort
      case 6 => PlyUInt
      case 7 => PlyFloat
      case 8 => PlyDouble
      case _ => PlyStartType
  }

  /** The search of find_element and find_property: the position of the first entry of the
      list whose name is the given one. */
  function FirstNamed<T>(entries: seq<T>, nameOf: T -> string, name: string): (r: Option<nat>)
    ensures r.None? <==> forall i :: 0 <= i < |entries| ==> nameOf(entries[i]) != name
    ensures r.Some? ==> r.value < |entries| && nameOf(entries[r.value]) == name
                        && forall j :: 0 <= j < r.value ==> nameOf(entries[j]) != name
  {
    if entries == [] then None
    else if nameOf(entries[0]) == name then Some(0)
    else
      var r := FirstNamed(entries[1..], nameOf, name);
      assert forall i :: 1 <= i < |entries| ==> entries[i] == entries[1..][i - 1];
      if r.Some? then Some(r.value + 1) else None
  }

  /** find_element: the first element of the header with the name. */
  function FindElement(header: Header, name: string): Option<ElementDecl> {
    match FirstNamed(header, (e: ElementDecl) => e.name, name)
      case None => None
      case Some(i) => Some(header[i])
  }

  /** find_property: the first property of the element with the name. */
  function FindProperty(properties: seq<PropertyDecl>, name: string): Option<PropertyDecl> {
    match FirstNamed(properties, (p: PropertyDecl) => p.name, name)
      case None => None
      case Some(i) => Some(properties[i])
  }

  /** hasElement */
  predicate HasElement(header: Header, element: string) {
    FindElement(header, element).Some?
  }

  /** hasProperty: false for an unknown element or property. */
  predicate HasProperty(header: Header, element: string, property: string) {
    match FindElement(header, element)
      case None => false
      case Some(e) => FindProperty(e.properties, property).Some?
  }

  /** isScalar: false for an unknown element or property, else whether the property is not a list. */
  predicate IsScalar(header: Header, element: string, property: string) {
    match FindElement(header, element)
      case None => false
      case Some(e) =>
        match FindProperty(e.properties, property)
          case None => false
          case Some(p) => !p.isList
  }

  /** What the reader keeps about a requested property. */
  datatype PropertyInfo = PropertyInfo(propertyName: string, dataType: PlyType, dataOffset: int,
                                       countType: PlyType, countOffset: int)

  /** A callback given by the client, by identity; None is an empty callback. */
  type CallbackId = nat

  /** What the reader keeps about a requested element. */
  datatype ElementInfo = ElementInfo(name: string, startElement: Option<CallbackId>,
                                     processElement: Option<CallbackId>, endElement: Option<CallbackId>,
                                     properties: seq<PropertyInfo>)

  /** The entry the table creates for an element looked up before it was requested. */
  const DefaultInfo := ElementInfo("", None, None, None, [])

  type Requests = map<string, ElementInfo>

  /** The entry of an element, the default entry if it has none. */
  function Entry(requested: Requests, element: string): ElementInfo {
    if element in requested then requested[element] else DefaultInfo
  }

  /** Whether a property with the name has been requested in the list. */
  predicate Named(properties: seq<PropertyInfo>, name: string) {
    exists i :: 0 <= i < |properties| && properties[i].propertyName == name
  }

  /** The property names of the list are distinct. */
  predicate DistinctNames(properties: seq<PropertyInfo>) {
    forall i, j :: 0 <= i < j < |properties| ==> properties[i].propertyName != properties[j].propertyName
  }

  /** The test parseFile makes of a requested property: a count type other than
      PLY_START_TYPE (library code 0) reads the property as a list. */
  predicate ReadAsList(p: PropertyInfo) {
    LibraryCode(p.countType) != 0
  }

  /** Every requested element is in the file; each of its requested properties is in the file,
      is requested once, and a scalar is never read as a list. (A list requested with a count
      type code outside 1..8 is recorded with PLY_START_TYPE and read as a scalar; see
      UnknownCountTypeReadAsScalar.) */
  predicate Fits(header: Header, requested: Requests) {
    forall element :: element in requested ==>
      && HasElement(header, element)
      && DistinctNames(requested[element].properties)
      && forall p :: p in requested[element].properties ==>
           HasProperty(header, element, p.propertyName)
           && (IsScalar(header, element, p.propertyName) ==> !ReadAsList(p))
  }

  /** requestElement: granted when the element is in the file and has no entry yet; the entry
      then holds the callbacks and no properties. */
  function ElementRequest(header: Header, requested: Requests, element: string, start: Option<CallbackId>,
                          process: Option<CallbackId>, end: Option<CallbackId>): (bool, Requests)
  {
    if HasElement(header, element) && element !in requested
    then (true, requested[element := ElementInfo(element, start, process, end, [])])
    else (false, requested)
  }

  /** requestProperty, for an element and property the file has: a failure when a list is
      requested as a scalar (count type 0) or a scalar as a list; otherwise the entry of the
      element (created if missing) gains the property unless it already has one by that name. */
  function PropertyRequest(header: Header, requested: Requests, element: string, property: string,
                           dataType: int, dataOffset: int, countType: int, countOffset: int): Result<(bool, Requests)>
    requires HasElement(header, element) && HasProperty(header, element, property)
  {
    var scalar := IsScalar(header, element, property);
    var wantScalar := countType == 0;
    if wantScalar && !scalar then Failure("Trying to access a list property as a scalar.")
    else if !wantScalar && scalar then Failure("Trying to access a scalar property as a list.")
    else
      var info := Entry(requested, element);
      if Named(info.properties, property) then Success((false, requested[element := info]))
      else
        var added := PropertyInfo(property, PlyTypeOf(dataType), dataOffset, PlyTypeOf(countType), countOffset);
        Success((true, requested[element := info.(properties := info.properties + [added])]))
  }

  /** requestElement succeeds exactly for an element of the file without an entry, and only
      then changes the table. */
  lemma ElementRequestGranted(header: Header, requested: Requests, element: string, start: Option<CallbackId>,
                              process: Option<CallbackId>, end: Option<CallbackId>)
    ensures ElementRequest(header, requested, element, start, process, end).0
            <==> (exists i :: 0 <= i < |header| && header[i].name == element) && element !in requested
    ensures !ElementRequest(header, requested, element, start, process, end).0
            ==> ElementRequest(header, requested, element, start, process, end).1 == requested
  {
  }

  /** Requesting an element a second time is refused and changes nothing. */
  lemma ElementRequestOnce(header: Header, requested: Requests, element: string,
                           start: Option<CallbackId>, process: Option<CallbackId>, end: Option<CallbackId>,
                           start2: Option<CallbackId>, process2: Option<CallbackId>, end2: Option<CallbackId>)
    ensures var (_, after) := ElementRequest(header, requested, element, start, process, end);
            ElementRequest(header, after, element, start2, process2, end2) == (false, after)
  {
  }

  /** A property request for a scalar with a list count type, or for a list with count type 0,
      fails; otherwise it succeeds. */
  lemma PropertyRequestFails(header: Header, requested: Requests, element: string, property: string,
                             dataType: int, dataOffset: int, countType: int, countOffset: int)
    requires HasElement(header, element) && HasProperty(header, element, property)
    ensures PropertyRequest(header, requested, element, property, dataType, dataOffset, countType, countOffset).Failure?
            <==> (countType == 0) != IsScalar(header, element, property)
  {
  }

  /** Requesting a property a second time is refused and leaves the table as the first request
      left it. */
  lemma PropertyRequestOnce(header: Header, requested: Requests, element: string, property: string,
                            dataType: int, dataOffset: int, countType: int, countOffset: int,
                            dataType2: int, dataOffset2: int, countOffset2: int)
    requires HasElement(header, element) && HasProperty(header, element, property)
    requires PropertyRequest(header, requested, element, property, dataType, dataOffset, countType, countOffset).Success?
    ensures var after := PropertyRequest(header, requested, element, property, dataType, dataOffset,
                                         countType, countOffset).value.1;
            PropertyRequest(header, after, element, property, dataType2, dataOffset2, countType, countOffset2)
            == Success((false, after))
  {
    var info := Entry(requested, element);
    var after := PropertyRequest(header, requested, element, property, dataType, dataOffset,
                                 countType, countOffset).value.1;
    var now := after[element].properties;
    if !Named(info.properties, property) {
      assert now[|now| - 1].propertyName == property;
    }
    assert Named(now, property);
    assert after[element := after[element]] == after;
  }

  /** A property requested before its element creates the element's entry, after which the
      element itself can no longer be requested. */
  lemma PropertyBeforeElement(header: Header, requested: Requests, element: string, property: string,
                              dataType: int, dataOffset: int, countType: int, countOffset: int,
                              start: Option<CallbackId>, process: Option<CallbackId>, end: Option<CallbackId>)
    requires HasElement(header, element) && HasProperty(header, element, property)
    requires element !in requested
    requires PropertyRequest(header, requested, element, property, dataType, dataOffset, countType, countOffset).Success?
    ensures var after := PropertyRequest(header, requested, element, property, dataType, dataOffset,
                                         countType, countOffset).value.1;
            element in after && after[element].name == ""
            && !ElementRequest(header, after, element, start, process, end).0
  {
  }

  /** requestElement keeps the table fitting the file. */
  lemma ElementRequestFits(header: Header, requested: Requests, element: string, start: Option<CallbackId>,
                           process: Option<CallbackId>, end: Option<CallbackId>)
    requires Fits(header, requested)
    ensures Fits(header, ElementRequest(header, requested, element, start, process, end).1)
  {
  }

  /** requestProperty keeps the table fitting the file. */
  lemma PropertyRequestFits(header: Header, requested: Requests, element: string, property: string,
                            dataType: int, dataOffset: int, countType: int, countOffset: int)
    requires Fits(header, requested)
    requires HasElement(header, element) && HasProperty(header, element, property)
    requires PropertyRequest(header, requested, element, property, dataType, dataOffset, countType, countOffset).Success?
    ensures Fits(header, PropertyRequest(header, requested, element, property, dataType, dataOffset,
                                         countType, countOffset).value.1)
  {
    var info := Entry(requested, element);
    if !Named(info.properties, property) {
      var added := PropertyInfo(property, PlyTypeOf(dataType), dataOffset, PlyTypeOf(countType), countOffset);
      var now := info.properties + [added];
      assert DistinctNames(now) by {
        forall i, j | 0 <= i < j < |now|
          ensures now[i].propertyName != now[j].propertyName
        {
          if j == |now| - 1 {
            assert now[i] == info.properties[i];
          }
        }
      }
      forall p | p in now
        ensures HasProperty(header, element, p.propertyName)
                && (IsScalar(header, element, p.propertyName) ==> !ReadAsList(p))
      {
        if p != added {
          assert p in info.properties;
        }
      }
    }
  }

  /** A list property requested with a count type code of the reader (1 to 8) is recorded with
      the library type of that number, so parseFile reads it as a list. */
  lemma ListRequestReadAsList(header: Header, requested: Requests, element: string, property: string,
                              dataType: int, dataOffset: int, countType: int, countOffset: int)
    requires HasElement(header, element) && HasProperty(header, element, property)
    requires !IsScalar(header, element, property) && 1 <= countType <= 8
    requires !Named(Entry(requested, element).properties, property)
    ensures var r := PropertyRequest(header, requested, element, property, dataType, dataOffset, countType, countOffset);
            r.Success? && r.value.0
            && var added := r.value.1[element].properties[|r.value.1[element].properties| - 1];
            added.propertyName == property && LibraryCode(added.countType) == countType && ReadAsList(added)
  {
  }

  /** A list property requested with a count type code outside the reader's enumeration is
      granted, but the lookup gives it PLY_START_TYPE, so parseFile reads it as a scalar. */
  lemma UnknownCountTypeReadAsScalar(header: Header, requested: Requests, element: string, property: string,
                                     dataType: int, dataOffset: int, countType: int, countOffset: int)
    requires HasElement(header, element) && HasProperty(header, element, property)
    requires !IsScalar(header, element, property) && !(0 <= countType <= 8)
    requires !Named(Entry(requested, element).properties, property)
    ensures var r := PropertyRequest(header, requested, element, property, dataType, dataOffset, countType, countOffset);
            r.Success? && r.value.0
            && var added := r.value.1[element].properties[|r.value.1[element].properties| - 1];
            added.propertyName == property && !ReadAsList(added)
  {
  }

  /** The table only grows: every entry stays, with its name and callbacks, and its properties
      stay a prefix of the new list. */
  predicate Grows(before: Requests, after: Requests) {
    forall element :: element in before ==>
      element in after && after[element].(properties := before[element].properties) == before[element]
      && before[element].properties <= after[element].properties
  }

  lemma GrowsTransitive(a: Requests, b: Requests, c: Requests)
    requires Grows(a, b) && Grows(b, c)
    ensures Grows(a, c)
  {
    forall element | element in a
      ensures element in c && c[element].(properties := a[element].properties) == a[element]
              && a[element].properties <= c[element].properties
    {
      assert b[element].properties <= c[element].properties;
    }
  }

  /** The calls a delegate makes on the reader when it registers: requestElement, requestProperty
      (requestScalarProperty is the call with count type and count offset 0, requestListProperty
      passes its arguments through), setStartParseFileCallback and setEndParseFileCallback. */
  datatype ReaderCall =
    | ElementCall(element: string, start: Option<CallbackId>, process: Option<CallbackId>, end: Option<CallbackId>)
    | PropertyCall(element: string, property: string, dataType: int, dataOffset: int, countType: int, countOffset: int)
    | StartParseCall(callback: Option<CallbackId>)
    | EndParseCall(callback: Option<CallbackId>)

  /** A delegate: whether it accepts the file, the calls its registration makes, in order, and
      the value the registration returns once they are made. */
  datatype Delegate = Delegate(acceptsFile: bool, calls: seq<ReaderCall>, registers: bool)

  /** The reader state the calls change: the requests and the two parse callbacks. */
  datatype Registration = Registration(requested: Requests, startParse: Option<CallbackId>,
                                       endParse: Option<CallbackId>)

  /** The state after the calls, in order, and the failure that stops them, if any: a property
      call for an element or a property the file lacks fails its assertion, a scalar asked for as
      a list or a list as a scalar fails, and the calls before it keep their effect. */
  function Register(header: Header, state: Registration, calls: seq<ReaderCall>): (Registration, Option<string>)
    decreases |calls|
  {
    if calls == [] then (state, None)
    else match calls[0]
      case ElementCall(e, start, process, end) =>
        Register(header, state.(requested := ElementRequest(header, state.requested, e, start, process, end).1), calls[1..])
      case PropertyCall(e, p, dataType, dataOffset, countType, countOffset) =>
        if !HasElement(header, e) then
          (state, Some("The element has not been requested yet, you cannot access properties for it"))
        else if !HasProperty(header, e, p) then
          (state, Some("The requested property cannot be found in the element."))
        else (match PropertyRequest(header, state.requested, e, p, dataType, dataOffset, countType, countOffset)
          case Failure(message) => (state, Some(message))
          case Success((_, after)) => Register(header, state.(requested := after), calls[1..]))
      case StartParseCall(callback) => Register(header, state.(startParse := callback), calls[1..])
      case EndParseCall(callback) => Register(header, state.(endParse := callback), calls[1..])
  }

  /** requestElement only adds an entry. */
  lemma ElementRequestGrows(header: Header, requested: Requests, element: string, start: Option<CallbackId>,
                            process: Option<CallbackId>, end: Option<CallbackId>)
    ensures Grows(requested, ElementRequest(header, requested, element, start, process, end).1)
  {
  }

  /** A successful requestProperty only adds an entry or appends to one. */
  lemma PropertyRequestGrows(header: Header, requested: Requests, element: string, property: string,
                             dataType: int, dataOffset: int, countType: int, countOffset: int)
    requires HasElement(header, element) && HasProperty(header, element, property)
    requires PropertyRequest(header, requested, element, property, dataType, dataOffset, countType, countOffset).Success?
    ensures Grows(requested, PropertyRequest(header, requested, element, property, dataType, dataOffset,
                                             countType, countOffset).value.1)
  {
  }

  /** A delegate's registration keeps the table fitting the file, whether or not one of its
      calls fails. */
  lemma {:induction false} RegisterFits(header: Header, state: Registration, calls: seq<ReaderCall>)
    requires Fits(header, state.requested)
    ensures Fits(header, Register(header, state, calls).0.requested)
    decreases |calls|
  {
    if calls != [] {
      match calls[0]
      case ElementCall(e, start, process, end) =>
        ElementRequestFits(header, state.requested, e, start, process, end);
        RegisterFits(header, state.(requested := ElementRequest(header, state.requested, e, start, process, end).1),
                     calls[1..]);
      case PropertyCall(e, p, dataType, dataOffset, countType, countOffset) =>
        if HasElement(header, e) && HasProperty(header, e, p)
           && PropertyRequest(header, state.requested, e, p, dataType, dataOffset, countType, countOffset).Success? {
          PropertyRequestFits(header, state.requested, e, p, dataType, dataOffset, countType, countOffset);
          RegisterFits(header, state.(requested := PropertyRequest(header, state.requested, e, p, dataType,
                                                                   dataOffset, countType, countOffset).value.1),
                       calls[1..]);
        }
      case StartParseCall(callback) =>
        RegisterFits(header, state.(startParse := callback), calls[1..]);
      case EndParseCall(callback) =>
        RegisterFits(header, state.(endParse := callback), calls[1..]);
    }
  }

  /** A delegate's registration only adds to the table, whether or not one of its calls fails. */
  lemma {:induction false} RegisterGrows(header: Header, state: Registration, calls: seq<ReaderCall>)
    ensures Grows(state.requested, Register(header, state, calls).0.requested)
    decreases |calls|
  {
    if calls == [] {
    } else {
      match calls[0]
      case ElementCall(e, start, process, end) =>
        var next := state.(requested := ElementRequest(header, state.requested, e, start, process, end).1);
        ElementRequestGrows(header, state.requested, e, start, process, end);
        RegisterGrows(header, next, calls[1..]);
        GrowsTransitive(state.requested, next.requested, Register(header, next, calls[1..]).0.requested);
      case PropertyCall(e, p, dataType, dataOffset, countType, countOffset) =>
        if HasElement(header, e) && HasProperty(header, e, p)
           && PropertyRequest(header, state.requested, e, p, dataType, dataOffset, countType, countOffset).Success? {
          var next := state.(requested := PropertyRequest(header, state.requested, e, p, dataType, dataOffset,
                                                          countType, countOffset).value.1);
          PropertyRequestGrows(header, state.requested, e, p, dataType, dataOffset, countType, countOffset);
          RegisterGrows(header, next, calls[1..]);
          GrowsTransitive(state.requested, next.requested, Register(header, next, calls[1..]).0.requested);
        }
      case StartParseCall(callback) =>
        RegisterGrows(header, state.(startParse := callback), calls[1..]);
      case EndParseCall(callback) =>
        RegisterGrows(header, state.(endParse := callback), calls[1..]);
    }
  }

  /** The reader of one .ply file: its header (None when the file could not be opened as a
      .ply file), the requested elements and properties, the parse callbacks, and how often the
      file was parsed. */
  class PlyReader {
    const header: Option<Header>
    var requested: Requests
    var startParse: Option<CallbackId>
    var endParse: Option<CallbackId>
    var parses: nat

    ghost predicate Valid()
      reads this
    {
      header.Some? ==> Fits(header.value, requested)
    }

    /** The reader of a file, with nothing requested yet. */
    constructor (file: Option<Header>)
      ensures Valid() && header == file && requested == map[] && startParse.None? && endParse.None? && parses == 0
    {
      header := file;
      requested := map[];
      startParse, endParse := None, None;
      parses := 0;
    }

    /** isValid: the file was opened as a .ply file. */
    predicate IsValid() {
      header.Some?
    }

    /** requestElement, for a valid file. */
    method RequestElement(element: string, start: Option<CallbackId>, process: Option<CallbackId>,
                          end: Option<CallbackId>) returns (result: bool)
      requires IsValid() && Valid()
      modifies this
      ensures Valid()
      ensures (result, requested) == ElementRequest(header.value, old(requested), element, start, process, end)
      ensures startParse == old(startParse) && endParse == old(endParse) && parses == old(parses)
    {
      ElementRequestFits(header.value, requested, element, start, process, end);
      result := false;
      if HasElement(header.value, element) && element !in requested {
        requested := requested[element := ElementInfo(element, start, process, end, [])];
        result := true;
      }
    }

    /** The search of requestProperty: whether the list has a property with the name. */
    static method FindNamed(properties: seq<PropertyInfo>, name: string) returns (found: bool)
      ensures found <==> Named(properties, name)
    {
      for i := 0 to |properties|
        invariant forall j :: 0 <= j < i ==> properties[j].propertyName != name
      {
        if properties[i].propertyName == name {
          return true;
        }
      }
      return false;
    }

    /** requestProperty, for a valid file and an element and property it has. */
    method RequestProperty(element: string, property: string, dataType: int, dataOffset: int,
                           countType: int, countOffset: int) returns (result: Result<bool>)
      requires IsValid() && Valid()
      requires HasElement(header.value, element) && HasProperty(header.value, element, property)
      modifies this
      ensures Valid()
      ensures var expected := PropertyRequest(header.value, old(requested), element, property,
                                              dataType, dataOffset, countType, countOffset);
              match expected
                case Failure(e) => result == Failure(e) && requested == old(requested)
                case Success((granted, after)) => result == Success(granted) && requested == after
      ensures startParse == old(startParse) && endParse == old(endParse) && parses == old(parses)
    {
      var scalar := IsScalar(header.value, element, property);
      var wantScalar := countType == 0;
      if wantScalar && !scalar {
        return Failure("Trying to access a list property as a scalar.");
      } else if !wantScalar && scalar {
        return Failure("Trying to access a scalar property as a list.");
      }
      PropertyRequestFits(header.value, requested, element, property, dataType, dataOffset, countType, countOffset);
      var info := Entry(requested, element);
      var present := FindNamed(info.properties, property);
      if present {
        requested := requested[element := info];
        return Success(false);
      }
      var added := PropertyInfo(property, PlyTypeOf(dataType), dataOffset, PlyTypeOf(countType), countOffset);
      requested := requested[element := info.(properties := info.properties + [added])];
      return Success(true);
    }

    /** requestScalarProperty: requestProperty with count type and count offset 0. */
    method RequestScalarProperty(element: string, property: string, dataType: int, dataOffset: int)
      returns (result: Result<bool>)
      requires IsValid() && Valid()
      requires HasElement(header.value, element) && HasProperty(header.value, element, property)
      modifies this
      ensures Valid()
      ensures var expected := PropertyRequest(header.value, old(requested), element, property,
                                              dataType, dataOffset, 0, 0);
              match expected
                case Failure(e) => result == Failure(e) && requested == old(requested)
                case Success((granted, after)) => result == Success(granted) && requested == after
      ensures startParse == old(startParse) && endParse == old(endParse) && parses == old(parses)
    {
      result := RequestProperty(element, property, dataType, dataOffset, 0, 0);
    }

    /** setStartParseFileCallback */
    method SetStartParseFileCallback(callback: Option<CallbackId>)
      modifies this
      ensures startParse == callback
      ensures requested == old(requested) && endParse == old(endParse) && parses == old(parses)
    {
      startParse := callback;
    }

    /** setEndParseFileCallback */
    method SetEndParseFileCallback(callback: Option<CallbackId>)
      modifies this
      ensures endParse == callback
      ensures requested == old(requested) && startParse == old(startParse) && parses == old(parses)
    {
      endParse := callback;
    }

    /** The current state the delegate's calls act on. */
    function State(): Registration
      reads this
    {
      Registration(requested, startParse, endParse)
    }

    /** setDelegate, for a valid file: false for a missing delegate or one that does not accept
        the file; otherwise the delegate registers itself, making its calls on the reader in
        order, and the result is what its registration returns. A call that fails stops the
        registration with that failure, the calls before it keeping their effect. */
    method SetDelegate(delegate: Option<Delegate>) returns (result: Result<bool>)
      requires IsValid() && Valid()
      modifies this
      ensures Valid()
      ensures delegate.None? || !delegate.value.acceptsFile ==> result == Success(false) && State() == old(State())
      ensures delegate.Some? && delegate.value.acceptsFile ==>
                var (after, failure) := Register(header.value, old(State()), delegate.value.calls);
                State() == after
                && (if failure.Some? then result == Failure(failure.value) else result == Success(delegate.value.registers))
      ensures parses == old(parses)
    {
      if delegate.None? || !delegate.value.acceptsFile {
        return Success(false);
      }
      var calls := delegate.value.calls;
      ghost var expected := Register(header.value, State(), calls);
      var i := 0;
      while i < |calls|
        invariant 0 <= i <= |calls|
        invariant Valid() && parses == old(parses)
        invariant Register(header.value, State(), calls[i..]) == expected
      {
        assert calls[i..][1..] == calls[i + 1..];
        match calls[i] {
          case ElementCall(e, start, process, end) =>
            var _ := RequestElement(e, start, process, end);
          case PropertyCall(e, p, dataType, dataOffset, countType, countOffset) =>
            if !HasElement(header.value, e) {
              return Failure("The element has not been requested yet, you cannot access properties for it");
            }
            if !HasProperty(header.value, e, p) {
              return Failure("The requested property cannot be found in the element.");
            }
            var r := RequestProperty(e, p, dataType, dataOffset, countType, countOffset);
            if r.Failure? {
              return Failure(r.error);
            }
          case StartParseCall(callback) =>
            SetStartParseFileCallback(callback);
          case EndParseCall(callback) =>
            SetEndParseFileCallback(callback);
        }
        i := i + 1;
      }
      assert calls[i..] == [];
      result := Success(delegate.value.registers);
    }

    /** parseWithDelegate: the file is parsed once exactly when setting the delegate answered
        true; the table and callbacks are those the delegate's registration left. */
    method ParseWithDelegate(delegate: Option<Delegate>) returns (result: Result<bool>)
      requires IsValid() && Valid()
      modifies this
      ensures Valid()
      ensures delegate.None? || !delegate.value.acceptsFile ==> result == Success(false) && State() == old(State())
      ensures delegate.Some? && delegate.value.acceptsFile ==>
                var (after, failure) := Register(header.value, old(State()), delegate.value.calls);
                State() == after
                && (if failure.Some? then result == Failure(failure.value) else result == Success(delegate.value.registers))
      ensures parses == old(parses) + if result == Success(true) then 1 else 0
    {
      result := SetDelegate(delegate);
      if result == Success(true) {
        parses := parses + 1;
      }
    }
  }
}
