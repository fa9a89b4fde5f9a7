/** The worker queues: thirteen lists of bounded queues, one list per
    pipeline stage, and the routing of an entity to one queue of a list by
    hashing its id. The hash function is a parameter of the manager. */
module AsyncQueues {
  import opened Records

  /** A buffered channel: its capacity and the uuids of the commands
      waiting in it. */
  datatype AsyncQueue = AsyncQueue(capacity: U32, items: seq<U64>)

  predicate Bounded(q: AsyncQueue) {
    |q.items| <= q.capacity
  }

  /** The pipeline stages that own a queue list. */
  datatype Stage =
    | UserReq | UserRsp | MsgReq | EntityReq | DbReq | DbLimitedReq | CatchUpReq
    | RecoverReq | RecoverRsp | ToolsReq | PlogReq | PlogReadOnlyReq | PlogRsp

  /** The stages served by the entity workers; their lists all have one
      queue per entity worker. */
  predicate IsEntityStage(s: Stage) {
    s == UserReq || s == UserRsp || s == EntityReq || s == PlogRsp || s == RecoverRsp
  }

  /** The worker counts and queue sizes the queue lists are built from. */
  datatype Options = Options(
    msgWorkerNum: U32,
    entityWorkerNum: U32,
    plogWorkerNum: U32,
    plogReadonlyWorkerNum: U32,
    dbWorkerNum: U32,
    dbLimitedWorkerNum: U32,
    recoverWorkerNum: U32,
    catchUpWorkerNum: U32,
    toolsWorkerNum: U32,
    userQueueSize: U32,
    msgQueueSize: U32,
    entityQueueSize: U32,
    plogQueueSize: U32,
    dbQueueSize: U32,
    recoverQueueSize: U32,
    catchUpQueueSize: U32,
    toolsQueueSize: U32)

  /** How many queues Init creates for a stage. */
  function WorkerNum(o: Options, s: Stage): U32 {
    match s
    case MsgReq => o.msgWorkerNum
    case UserReq | UserRsp | EntityReq | PlogRsp | RecoverRsp => o.entityWorkerNum
    case PlogReq => o.plogWorkerNum
    case PlogReadOnlyReq => o.plogReadonlyWorkerNum
    case DbReq => o.dbWorkerNum
    case DbLimitedReq => o.dbLimitedWorkerNum
    case RecoverReq => o.recoverWorkerNum
    case CatchUpReq => o.catchUpWorkerNum
    case ToolsReq => o.toolsWorkerNum
  }

  /** The capacity Init gives the queues of a stage. */
  function QueueSize(o: Options, s: Stage): U32 {
    match s
    case MsgReq => o.msgQueueSize
    case UserReq | UserRsp => o.userQueueSize
    case EntityReq => o.entityQueueSize
    case PlogRsp | PlogReq | PlogReadOnlyReq => o.plogQueueSize
    case RecoverRsp | RecoverReq => o.recoverQueueSize
    case DbReq | DbLimitedReq => o.dbQueueSize
    case CatchUpReq => o.catchUpQueueSize
    case ToolsReq => o.toolsQueueSize
  }

  /** `cnt` empty queues of capacity `size`. */
  function EmptyQueues(cnt: nat, size: U32): seq<AsyncQueue> {
    if cnt == 0 then [] else EmptyQueues(cnt - 1, size) + [AsyncQueue(size, [])]
  }

  /** The list has `cnt` queues, each empty and of capacity `size`. */
  lemma {:induction false} EmptyQueuesProperties(cnt: nat, size: U32)
    ensures |EmptyQueues(cnt, size)| == cnt
    ensures forall i :: 0 <= i < cnt ==>
      EmptyQueues(cnt, size)[i].capacity == size && EmptyQueues(cnt, size)[i].items == [] && Bounded(EmptyQueues(cnt, size)[i])
  {
    if cnt > 0 {
      EmptyQueuesProperties(cnt - 1, size);
    }
  }

  /** Builds a list of `cnt` empty queues of capacity `size`. */
  method CreateAsyncQueues(cnt: U32, size: U32) returns (queues: seq<AsyncQueue>)
    ensures queues == EmptyQueues(cnt as int, size)
  {
    queues := [];
    var i: U32 := 0;
    while i < cnt
      invariant i <= cnt
      invariant queues == EmptyQueues(i as int, size)
    {
      queues := queues + [AsyncQueue(size, [])];
      i := i + 1;
    }
  }

  /** The list builder as coded: `make([]AsyncQueue, 0, cnt)` gives a
      slice of length zero (only its capacity is `cnt`), so the first write
      `queues[0] = ...` of the loop is out of range whenever the loop runs.
      None stands for that fault; only `cnt == 0` yields a list, the empty
      one. */
  function CreateAsyncQueuesAsWritten(cnt: U32, size: U32): (r: Option<seq<AsyncQueue>>)
    ensures r.None? <==> cnt > 0
    ensures r.Some? ==> r.value == EmptyQueues(cnt as int, size)
  {
    if cnt > 0 then None else Some([])
  }

  class AsyncQueueMng {
    /** The entity-id hash; any function of the id. */
    const hash: U64 -> U64

    var userReqQueues: seq<AsyncQueue>
    var userRspQueues: seq<AsyncQueue>
    var msgReqQueues: seq<AsyncQueue>
    var entityReqQueues: seq<AsyncQueue>
    var dbReqQueues: seq<AsyncQueue>
    var dbLimitedReqQueues: seq<AsyncQueue>
    var catchUpReqQueues: seq<AsyncQueue>
    var recoverReqQueues: seq<AsyncQueue>
    var recoverRspQueues: seq<AsyncQueue>
    var toolsReqQueues: seq<AsyncQueue>
    var plogReqQueues: seq<AsyncQueue>
    var plogReadOnlyReqQueues: seq<AsyncQueue>
    var plogRspQueues: seq<AsyncQueue>

    constructor(hash: U64 -> U64)
      ensures this.hash == hash
      ensures forall s :: Queues(s) == []
    {
      this.hash := hash;
      userReqQueues, userRspQueues, msgReqQueues, entityReqQueues := [], [], [], [];
      dbReqQueues, dbLimitedReqQueues, catchUpReqQueues, recoverReqQueues := [], [], [], [];
      recoverRspQueues, toolsReqQueues, plogReqQueues, plogReadOnlyReqQueues := [], [], [], [];
      plogRspQueues := [];
    }

    /** The queue list of a stage. */
    function Queues(s: Stage): seq<AsyncQueue>
      reads this
    {
      match s
      case UserReq => userReqQueues
      case UserRsp => userRspQueues
      case MsgReq => msgReqQueues
      case EntityReq => entityReqQueues
      case DbReq => dbReqQueues
      case DbLimitedReq => dbLimitedReqQueues
      case CatchUpReq => catchUpReqQueues
      case RecoverReq => recoverReqQueues
      case RecoverRsp => recoverRspQueues
      case ToolsReq => toolsReqQueues
      case PlogReq => plogReqQueues
      case PlogReadOnlyReq => plogReadOnlyReqQueues
      case PlogRsp => plogRspQueues
    }

    /** Whether every list is the one Init builds from `o`. */
    predicate InitializedWith(o: Options)
      reads this
    {
      forall s :: Queues(s) == EmptyQueues(WorkerNum(o, s), QueueSize(o, s))
    }

    /** The entity workers' lists are built from `o`. */
    predicate EntityListsBuilt(o: Options)
      reads this`userReqQueues, this`userRspQueues, this`entityReqQueues, this`plogRspQueues, this`recoverRspQueues
    {
      && userReqQueues == EmptyQueues(o.entityWorkerNum as int, o.userQueueSize)
      && userRspQueues == EmptyQueues(o.entityWorkerNum as int, o.userQueueSize)
      && entityReqQueues == EmptyQueues(o.entityWorkerNum as int, o.entityQueueSize)
      && plogRspQueues == EmptyQueues(o.entityWorkerNum as int, o.plogQueueSize)
      && recoverRspQueues == EmptyQueues(o.entityWorkerNum as int, o.recoverQueueSize)
    }

    /** The other workers' lists are built from `o`. */
    predicate WorkerListsBuilt(o: Options)
      reads this`msgReqQueues, this`plogReqQueues, this`plogReadOnlyReqQueues, this`dbReqQueues,
            this`dbLimitedReqQueues, this`recoverReqQueues, this`catchUpReqQueues, this`toolsReqQueues
    {
      && msgReqQueues == EmptyQueues(o.msgWorkerNum as int, o.msgQueueSize)
      && plogReqQueues == EmptyQueues(o.plogWorkerNum as int, o.plogQueueSize)
      && plogReadOnlyReqQueues == EmptyQueues(o.plogReadonlyWorkerNum as int, o.plogQueueSize)
      && dbReqQueues == EmptyQueues(o.dbWorkerNum as int, o.dbQueueSize)
      && dbLimitedReqQueues == EmptyQueues(o.dbLimitedWorkerNum as int, o.dbQueueSize)
      && recoverReqQueues == EmptyQueues(o.recoverWorkerNum as int, o.recoverQueueSize)
      && catchUpReqQueues == EmptyQueues(o.catchUpWorkerNum as int, o.catchUpQueueSize)
      && toolsReqQueues == EmptyQueues(o.toolsWorkerNum as int, o.toolsQueueSize)
    }

    /** Builds every stage's list from the options. */
    method Init(options: Options)
      modifies this
      ensures EntityListsBuilt(options) && WorkerListsBuilt(options)
      ensures InitializedWith(options)
    {
      InitWorkerQueues(options);
      InitEntityQueues(options);
      InitializedFromHalves(options);
    }

    /** The lists of the entity workers, one queue per entity worker each. */
    method InitEntityQueues(options: Options)
      modifies this`userReqQueues, this`userRspQueues, this`entityReqQueues, this`plogRspQueues, this`recoverRspQueues
      ensures EntityListsBuilt(options)
    {
      userReqQueues := CreateAsyncQueues(options.entityWorkerNum, options.userQueueSize);
      userRspQueues := CreateAsyncQueues(options.entityWorkerNum, options.userQueueSize);
      entityReqQueues := CreateAsyncQueues(options.entityWorkerNum, options.entityQueueSize);
      plogRspQueues := CreateAsyncQueues(options.entityWorkerNum, options.plogQueueSize);
      recoverRspQueues := CreateAsyncQueues(options.entityWorkerNum, options.recoverQueueSize);
    }

    /** The lists of the msg, plog, db, recover, catch-up and tools workers. */
    method InitWorkerQueues(options: Options)
      modifies this`msgReqQueues, this`plogReqQueues, this`plogReadOnlyReqQueues, this`dbReqQueues,
               this`dbLimitedReqQueues, this`recoverReqQueues, this`catchUpReqQueues, this`toolsReqQueues
      ensures WorkerListsBuilt(options)
    {
      msgReqQueues := CreateAsyncQueues(options.msgWorkerNum, options.msgQueueSize);
      plogReqQueues := CreateAsyncQueues(options.plogWorkerNum, options.plogQueueSize);
      plogReadOnlyReqQueues := CreateAsyncQueues(options.plogReadonlyWorkerNum, options.plogQueueSize);
      dbReqQueues := CreateAsyncQueues(options.dbWorkerNum, options.dbQueueSize);
      dbLimitedReqQueues := CreateAsyncQueues(options.dbLimitedWorkerNum, options.dbQueueSize);
      recoverReqQueues := CreateAsyncQueues(options.recoverWorkerNum, options.recoverQueueSize);
      catchUpReqQueues := CreateAsyncQueues(options.catchUpWorkerNum, options.catchUpQueueSize);
      toolsReqQueues := CreateAsyncQueues(options.toolsWorkerNum, options.toolsQueueSize);
    }

    /** The two halves together give every stage its list. */
    lemma InitializedFromHalves(o: Options)
      requires EntityListsBuilt(o) && WorkerListsBuilt(o)
      ensures InitializedWith(o)
    {
    }

    /** Drops every queue list. */
    method Destroy()
      modifies this
      ensures forall s :: Queues(s) == []
    {
      userReqQueues, plogReqQueues, toolsReqQueues, recoverRspQueues := [], [], [], [];
      recoverReqQueues, catchUpReqQueues, dbLimitedReqQueues, dbReqQueues := [], [], [], [];
      entityReqQueues, msgReqQueues, userRspQueues, plogReadOnlyReqQueues := [], [], [], [];
      plogRspQueues := [];
    }

    /** The queue at a worker index; the index must be in range. */
    function QueueByIdx(s: Stage, id: U32): (q: AsyncQueue)
      reads this
      requires id as int < |Queues(s)|
      ensures q in Queues(s)
    {
      Queues(s)[id]
    }

    /** The worker index an entity is routed to: its hash modulo the number
        of queues, which must not be zero. */
    function QueueIndexByEntityId(s: Stage, entityId: U64): (i: nat)
      reads this
      requires |Queues(s)| > 0
      ensures i < |Queues(s)|
    {
      hash(entityId) % |Queues(s)|
    }

    /** The queue an entity is routed to. */
    function QueueByEntityId(s: Stage, entityId: U64): (q: AsyncQueue)
      reads this
      requires |Queues(s)| > 0
      ensures q in Queues(s)
    {
      Queues(s)[QueueIndexByEntityId(s, entityId)]
    }

    /** Routing looks only at the hash of the id and the length of the list:
        ids with the same hash, and lists of the same length, give the same
        worker index. */
    lemma RoutingDeterministic(s: Stage, t: Stage, e1: U64, e2: U64)
      requires |Queues(s)| > 0 && |Queues(s)| == |Queues(t)|
      requires hash(e1) == hash(e2)
      ensures QueueIndexByEntityId(s, e1) == QueueIndexByEntityId(t, e2)
    {
    }

    /** After Init, the lists of all entity stages have one queue per
        entity worker, so an entity lands on the same worker index in each. */
    lemma EntityStagesShareIndex(o: Options, s: Stage, t: Stage, entityId: U64)
      requires InitializedWith(o) && o.entityWorkerNum > 0
      requires IsEntityStage(s) && IsEntityStage(t)
      ensures |Queues(s)| == |Queues(t)| == o.entityWorkerNum as int
      ensures QueueIndexByEntityId(s, entityId) == QueueIndexByEntityId(t, entityId)
    {
      EmptyQueuesProperties(WorkerNum(o, s), QueueSize(o, s));
      EmptyQueuesProperties(WorkerNum(o, t), QueueSize(o, t));
    }

    /** Every queue Init builds is empty and within its capacity. */
    lemma InitializedQueuesBounded(o: Options, s: Stage)
      requires InitializedWith(o)
      ensures |Queues(s)| == WorkerNum(o, s) as int
      ensures forall i :: 0 <= i < |Queues(s)| ==> Queues(s)[i].items == [] && Bounded(Queues(s)[i])
    {
      EmptyQueuesProperties(WorkerNum(o, s), QueueSize(o, s));
    }

    /** After Destroy, or before Init, no entity can be routed: every list
        is empty, and routing requires a non-empty one. */
    lemma NoRoutingWithoutQueues(s: Stage)
      requires forall t :: Queues(t) == []
      ensures !(|Queues(s)| > 0)
    {
    }
  }
}
