/**
 Edges of a query plan, the operators that use them, and the intermediate tables they work on.
 */
module TableOperator {

  /** Which positions of a triple are given (left of the 2) and which are looked up (right of it). */
  datatype JoinMethod = S2P | S2O | P2S | P2O | O2S | O2P | SO2P | SP2O | PO2S | S2PO | P2SO | O2PS {
    predicate OneNode() {
      S2P? || S2O? || P2S? || P2O? || O2S? || O2P? || SO2P? || SP2O? || PO2S?
    }

    predicate TwoNode() {
      S2PO? || P2SO? || O2PS?
    }

    predicate GivesS() {
      S2P? || S2O? || SO2P? || SP2O? || S2PO?
    }

    predicate GivesP() {
      P2S? || P2O? || SP2O? || PO2S? || P2SO?
    }

    predicate GivesO() {
      O2S? || O2P? || SO2P? || PO2S? || O2PS?
    }

    predicate FindsS() {
      P2S? || O2S? || PO2S? || P2SO? || O2PS?
    }

    predicate FindsP() {
      S2P? || O2P? || SO2P? || S2PO? || O2PS?
    }

    predicate FindsO() {
      S2O? || P2O? || SP2O? || S2PO? || P2SO?
    }

    /** Lookups by two ids return no duplicates whatever the caller's distinct flag says. */
    predicate GivesTwo() {
      SO2P? || SP2O? || PO2S?
    }
  }

  /** The three positions of an edge: a variable id or, where EdgeConstantInfo says so, a constant id. */
  datatype EdgeInfo = EdgeInfo(s: nat, p: nat, o: nat, joinMethod: JoinMethod) {
    /** The position an edge looks up. Only edges that look up a single position have one. */
    function GetVarToFilter(): nat
      requires joinMethod.OneNode()
    {
      match joinMethod
      case S2P => p
      case S2O => o
      case P2S => s
      case P2O => o
      case O2S => s
      case O2P => p
      case SO2P => p
      case SP2O => o
      case PO2S => s
    }
  }

  datatype EdgeConstantInfo = EdgeConstantInfo(sConstant: bool, pConstant: bool, oConstant: bool) {
    /** Whether every position the edge is given is a constant. */
    predicate ConstantToVar(info: EdgeInfo)
      requires info.joinMethod.OneNode()
    {
      match info.joinMethod
      case S2P => sConstant
      case S2O => sConstant
      case P2S => pConstant
      case P2O => pConstant
      case O2S => oConstant
      case O2P => oConstant
      case SO2P => sConstant && oConstant
      case SP2O => sConstant && pConstant
      case PO2S => pConstant && oConstant
    }

    /** Whether the position the edge looks up is a constant. */
    predicate FilteredIsConstant(info: EdgeInfo)
      requires info.joinMethod.OneNode()
    {
      if info.joinMethod.FindsS() then sConstant
      else if info.joinMethod.FindsP() then pConstant
      else oConstant
    }
  }

  datatype Edge = Edge(info: EdgeInfo, constant: EdgeConstantInfo) {
    /** The variables an edge reads from the record. */
    function Reads(): set<nat> {
      (if info.joinMethod.GivesS() && !constant.sConstant then {info.s} else {})
      + (if info.joinMethod.GivesP() && !constant.pConstant then {info.p} else {})
      + (if info.joinMethod.GivesO() && !constant.oConstant then {info.o} else {})
    }
  }

  datatype FeedOneNode = FeedOneNode(nodeToJoin: nat, addedIntoTable: bool, edges: seq<Edge>)

  datatype FeedTwoNode = FeedTwoNode(nodeToJoin1: nat, nodeToJoin2: nat, edge: Edge)

  datatype StepOperation =
    | JoinNode(node: FeedOneNode, distinct: bool, remainOld: bool)
    | JoinTwoNodes(twoNodes: FeedTwoNode, remainOld: bool)
    | EdgeCheck(filter: FeedOneNode, remainOld: bool)
    | JoinTable(publicVariables: seq<nat>, remainOld: bool)

  type Row = seq<nat>

  type PositionValue = map<nat, nat>

  /** The two position maps of a table of the given width are mutually inverse. */
  ghost predicate MutuallyInverse(idPos: PositionValue, posId: PositionValue, width: nat) {
    && (forall i :: i in posId <==> 0 <= i < width)
    && (forall v :: v in idPos ==> idPos[v] < width && posId[idPos[v]] == v)
    && (forall i :: 0 <= i < width ==> posId[i] in idPos && idPos[posId[i]] == i)
  }

  /** The new columns after one more node was added on the right. */
  function AddedIdPos(idPos: PositionValue, posId: PositionValue, id: nat): PositionValue {
    idPos[id := |posId|]
  }

  function AddedPosId(posId: PositionValue, id: nat): PositionValue {
    posId[|posId| := id]
  }

  class IntermediateResult {
    var values: seq<Row>
    var idPos: PositionValue
    var posId: PositionValue

    constructor ()
      ensures values == [] && idPos == map[] && posId == map[]
    {
      values, idPos, posId := [], map[], map[];
    }

    /** A fresh table with the same columns and no rows. */
    constructor OnlyPositionCopy(other: IntermediateResult)
      ensures values == [] && idPos == other.idPos && posId == other.posId
    {
      values, idPos, posId := [], other.idPos, other.posId;
    }

    /** Adds a column to the right of the table. */
    method AddNewNode(id: nat) returns (newPos: nat)
      modifies this`idPos, this`posId
      ensures newPos == |old(posId)|
      ensures idPos == AddedIdPos(old(idPos), old(posId), id)
      ensures posId == AddedPosId(old(posId), id)
    {
      newPos := |posId|;
      posId := posId[newPos := id];
      idPos := idPos[id := newPos];
    }

    predicate HasNoColumns()
      reads this
    {
      |idPos| == 0
    }
  }

  lemma DomainSize(posId: PositionValue, width: nat)
    requires forall i :: i in posId <==> 0 <= i < width
    ensures |posId| == width
    decreases width
  {
    if width == 0 {
      assert posId == map[];
    } else {
      var shorter := posId - {width - 1};
      DomainSize(shorter, width - 1);
      assert posId.Keys == shorter.Keys + {width - 1};
    }
  }

  /** Adding a node that is not yet in the table keeps the maps mutually inverse, one column wider. */
  lemma AddNewNodeInverse(idPos: PositionValue, posId: PositionValue, width: nat, id: nat)
    requires MutuallyInverse(idPos, posId, width) && id !in idPos
    ensures MutuallyInverse(AddedIdPos(idPos, posId, id), AddedPosId(posId, id), width + 1)
    ensures |posId| == width
  {
    DomainSize(posId, width);
  }

  /** The columns of a table that holds no columns yet, and the exact width in terms of either map. */
  lemma InverseWidth(idPos: PositionValue, posId: PositionValue, width: nat)
    requires MutuallyInverse(idPos, posId, width)
    ensures |posId| == width && |idPos| == width
  {
    DomainSize(posId, width);
    var ids := idPos.Keys;
    InverseKeys(idPos, posId, width);
  }

  lemma InverseKeys(idPos: PositionValue, posId: PositionValue, width: nat)
    requires MutuallyInverse(idPos, posId, width)
    ensures |idPos| == width
    decreases width
  {
    if width == 0 {
      assert idPos == map[];
    } else {
      var v := posId[width - 1];
      var idPos' := idPos - {v};
      var posId' := posId - {width - 1};
      InverseKeys(idPos', posId', width - 1);
      assert idPos.Keys == idPos'.Keys + {v};
    }
  }
}
