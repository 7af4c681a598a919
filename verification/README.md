# A verified model of the chat backend

The project models the stateful core of a chat application: presence over a Redis registry with
expiring keys, the room, social and message transactions, the WebSocket fan-out, byte serving and the
attachment stores, and paging together with the client's message list.

Each component has a specification module (values, pure functions, runs of events, and the theorems)
and, where the program changes things in place, a class whose methods are proved equal to the
specification functions step by step:

| component | specification | in place |
|---|---|---|
| Presence registry, stored flag, SQL dual write, parity check | `Presence`, `PresenceHistories` | `PresenceService` |
| WebSocket consumers and channel groups | `Fanout`, `FanoutHistories` | `ChatConsumer` |
| Both above together | `Sockets` | the services above |
| Rooms, roles, bans, invitations | `Rooms`, `RoomHistories` | `RoomService` |
| Friendships, peer bans, dialogs | `Social`, `SocialHistories` | `SocialService` |
| Messages, attachments, bindings, blobs | `Messages` | `MessageService` |
| The three above together, with their access checks | `Chat`, `MessageHistories` | the services above |
| Unread watermarks and counters | `Unread` | `UnreadService` |
| Read states over the chats themselves | `ReadStates` | the services above |
| Range header, streaming | `ByteRange`, `Decimal` | `Download` |
| Two-tier storage and backfill | `Backfill` | `AttachmentStores` |
| Directory tree of the filesystem backend | `LocalTree` | `LocalTree.Storage` |
| Cursors, pages, the client's loading loop | `Cursor`, `CursorTexts`, `Paging` | `Paging.LoadHistory` |
| Printed times and the client's message list | `Timestamps`, `MessageList` | none, the reducer is pure |
| Live events and older pages on one list | `LiveList` | none, likewise |

`Common` and `Ordering` hold shared datatypes, predicates and facts about sorted listings; `Histories`
says what holding since some step means. The modules named `...Histories` state, for each thing the
state holds, exactly which steps of a run begin it and which end it, in terms of the state and the
request rather than of the transaction, so that both what must change and what must not is fixed.

Conventions. A transaction is one step, and a raised exception is a failure that leaves the state as
it was. The clock moves between transactions, so creation times are distinct. Fresh identifiers are
parameters, and a repeated one is refused. `hide` statements only keep proofs small.

## What the code does where one might expect something else

- The presence results need each connection key to belong to one user; a key used by two would leak
  (`Presence.SharedKeyLeaks`). Consumers use their channel's name, which is never handed out twice, so
  every run of sockets meets this (`Fanout.ChannelsKeepTheirUser`, `Sockets.SocketEventsAreAllowed`).
- A peer ban leaves a pending friend request open and accepting does not look at bans. Friends under a
  ban arise exactly by accepting under one (`Social.UnderBanExactly`, `Social.NeverUnderBanExactly`;
  `Social.FriendsUnderABan` is such a run). The dialog stays frozen (`Social.FrozenFlagIsExact`).
- `bytes=-0` gets the whole file although RFC 9110 section 14.1.2 calls it unsatisfiable, and an
  invalid range gets 416 or the whole file depending on its first position; section 14.2 allows both
  (`ByteRange.RangesServedUnlikeTheirMeaning`). Numerals of more than 4300 digits raise in `int` and end as a server error.
- The backfill keeps every download unchanged except when an upload is cut short and reading its size
  or deleting it then raises (`Backfill.ReadViewIsKeptExactly`).
- `isoformat` drops zero microseconds, so a message created on a whole second sorts behind the others
  of that second on the client (`MessageList.TimeOrderExactly`).
- Pages are cut by offset. A message deleted between two requests can make the next page skip one
  (`Paging.DeletionSkipsExactly`, `Paging.SkippedByDeletions`; `Paging.DeletionSkipsAMessage` is such a case), and
  messages arriving in between can repeat rows (`Paging.NoRepetitionExactly`; `Paging.ArrivalRepeatsARow`).
- A loaded page is put in front of the list as it is, so the list stays sorted and free of duplicates
  exactly while every page fits (`LiveList.SoundAllAlongExactly`).

## Model

| member | source | states |
|---|---|---|
| Presence.ReachableInvariant | backend/apps/chat/realtime/connection_registry.py:58-153 | After any run of upserts, closes, queries and pauses, the store represents the last registration of every connection not closed: each unexpired key is in its user's set, the set expires no earlier, open SQL rows mirror the registrations, and unexpired snapshots equal the user rows |
| Presence.ListingIsExact | backend/apps/chat/realtime/connection_registry.py:97-130 | A listing returns exactly the connections registered within the last time to live and not unregistered |
| Presence.QueriesAreInvisible | backend/apps/chat/realtime/connection_registry.py:97-130 | Dropping every query from a history changes no later listing or presence, so pruning, deleting empty sets and extending them cannot be observed |
| Presence.PruneRepresents | backend/apps/chat/realtime/connection_registry.py:97-130 | A listing's writes keep the store's meaning |
| Presence.AddRepresents | backend/apps/chat/realtime/connection_registry.py:58-87 | Registering replaces exactly one connection in what the store represents |
| Presence.RemoveRepresents | backend/apps/chat/realtime/connection_registry.py:90-94 | Unregistering takes exactly one connection out of what the store represents |
| Presence.ElapseRepresents | backend/apps/chat/realtime/connection_registry.py:97-130 | Time passing only lets registrations run out; the index and the expiry order survive |
| Presence.SharedKeyLeaks | backend/apps/chat/realtime/connection_registry.py:58-87 | A connection key used by two users puts the second user's connection into the first one's listing; the results above need one owner per key |
| Presence.PresenceIgnoresOrder | backend/apps/chat/realtime/presence.py:23-33 | Presence depends on the set of connections, not on order or repetition |
| Presence.PresenceIsMonotone | backend/apps/chat/realtime/presence.py:23-33 | Fewer connections at a later time never look more present |
| Presence.StoredPresenceIsActual | backend/apps/presence/services.py:62-126 | After an upsert, close or query the stored presence is that of the live connections; the change time moves exactly with the state and never back; other users' rows do not move; unexpired snapshots agree with the row |
| Presence.StepOnlyLowers | backend/apps/presence/services.py:62-100 | A step that does not register the user lowers the user's actual and stored presence or leaves them |
| Presence.PresenceOnlyFalls | backend/apps/presence/services.py:62-100 | Between a user's registrations presence only falls, over any run |
| Presence.OfflineByDeadline | backend/apps/chat/realtime/connection_registry.py:97-130 | A user who stops registering is offline when the time to live has passed, however often somebody queries, and the next query stores that |
| Presence.ParityIffHeartbeating | backend/apps/chat/migration/parity_checks.py:10-45 | With dual writing the parity check is silent exactly when every open SQL row of the user has heartbeated within the time to live |
| PresenceHistories.LevelExactly | backend/apps/chat/realtime/presence.py:23-33 | In every reachable state, over the events alone: online exactly with a standing heartbeat within the time to live that reports the tab in use or an interaction within the last minute; away exactly with such heartbeats none of which does; otherwise offline |
| PresenceHistories.BeatsExactly | backend/apps/chat/realtime/connection_registry.py:58-87 | A connection is registered exactly while its last heartbeat has not been followed by a close, and as that heartbeat says |
| PresenceHistories.StoredExactly | backend/apps/presence/services.py:62-100 | The user row is the level at the user's last upsert, close or query; the snapshot shows it for exactly its time to live; the set is kept for a heartbeat's time to live, or gone when offline |
| PresenceHistories.UntouchedIsOffline | backend/apps/presence/services.py:62-100 | Before any upsert, close or query of the user nothing is stored about them |
| PresenceHistories.PayloadExactly | backend/apps/presence/services.py:254-311 | An upsert or close announces the level of that moment exactly when it differs from the stored one |
| PresenceHistories.QueryPayloadExactly | backend/apps/presence/services.py:103-126 | A query returns the existing requested users, in order, each with the level of that moment |
| PresenceHistories.QueryAllIsARun | backend/apps/presence/services.py:103-126 | Asking for several users is a run of single queries |
| PresenceHistories.ClosedExactly | backend/apps/presence/services.py:199-210 | With dual writing a row carries a disconnection time exactly since its connection was closed then while open, and until its next heartbeat |
| PresenceHistories.ParityReportsExactly | backend/apps/chat/migration/parity_checks.py:10-45 | Whenever the parity check speaks up, Redis has fewer connections and both counts are reported, and both levels exactly when the SQL rows look more present |
| PresenceHistories.ListedNewestFirst | backend/apps/chat/realtime/connection_registry.py:121-130 | A listing has the newest interaction first, then the newest heartbeat, then the larger key |
| PresenceService.Service.RegisterConnection | backend/apps/chat/realtime/connection_registry.py:58-87 | Writes key and set with their expiries, and returns the sorted listing that follows |
| PresenceService.Service.UnregisterConnection | backend/apps/chat/realtime/connection_registry.py:90-94 | Deletes key and set entry, and returns the sorted listing that follows |
| PresenceService.Service.ListConnections | backend/apps/chat/realtime/connection_registry.py:97-130 | Returns each live connection once in descending order; stale ids go, the set is extended or deleted, nothing else changes |
| PresenceService.Service.CollectLive | backend/apps/chat/realtime/connection_registry.py:104-120 | The loop splits the ids into live snapshots, without repetition, and stale ids |
| PresenceService.ListingIsUnique | backend/apps/chat/realtime/connection_registry.py:121-130 | The listing does not depend on the order in which ids are visited |
| PresenceService.Service.RecomputeUserPresence | backend/apps/presence/services.py:62-100 | Row, snapshot key and registry end up as the presence of the live connections demands |
| PresenceService.Service.UpsertPresenceConnection | backend/apps/presence/services.py:213-276 | Whole new state of an upsert; a payload exactly when the state changed |
| PresenceService.Service.ClosePresenceConnection | backend/apps/presence/services.py:279-311 | Whole new state of a close; a payload exactly when the state changed |
| PresenceService.Service.GetPresenceSnapshots | backend/apps/presence/services.py:103-126 | The loop recomputes the requested users in order, skipping unknown ids |
| PresenceService.Service.CompareToLegacySql | backend/apps/chat/migration/parity_checks.py:10-45 | Lists a presence mismatch and a count mismatch exactly when they exist |
| Fanout.ReachableInvariant | backend/apps/chat/consumers.py:55-94 | Over every interleaving of handlers' single operations, publications, deliveries and membership changes, groups, subscription sets and pending work fit together |
| Fanout.GroupsMatchSubscriptions | backend/apps/chat/consumers.py:204-239 | A consumer that is not inside a handler is in a room or dialog group exactly when its set says so; a disconnected channel is in no group |
| Fanout.DisconnectSettles | backend/apps/chat/consumers.py:77-94 | The operations of a disconnect take the channel out of every group it was in |
| Fanout.DialogGroupsHoldParticipants | backend/apps/chat/consumers.py:221-231 | Dialog groups only ever hold channels of the dialog's two users, even in the middle of handlers |
| Fanout.RoomPublicationsCarryTheirRoom | backend/apps/chat/realtime/fanout.py:48-201 | Everything sent to a room's group names that room where the consumer looks for it, and nothing else does |
| Fanout.SocketsOnlyHearTheirOwn | backend/apps/chat/consumers.py:168-184 | What reaches a socket does so while its user may hear it: a room's event only for a current unbanned member, over stale subscriptions and for events in flight too |
| Fanout.ChannelsKeepTheirUser | backend/apps/chat/consumers.py:70-74 | A channel belongs to one user for good, so the channel name is a presence key with one owner |
| FanoutHistories.SentExactly | backend/apps/chat/consumers.py:168-184 | What a socket has been sent is, in order, exactly what was delivered to it at moments when its user could be shown it: anything but an order to leave, and a room's event only to a current unbanned member |
| FanoutHistories.InboxExactly | backend/apps/chat/realtime/fanout.py:48-201 | What was published to a channel's groups while it was in them is exactly what has been delivered or lost and what is still in its inbox |
| FanoutHistories.GroupsExactly | backend/apps/chat/consumers.py:204-239 | A channel whose handler is through is in a room's or dialog's group exactly when it has not disconnected and, by the actions so far, follows it |
| FanoutHistories.FollowersExactly | backend/apps/chat/consumers.py:168-219 | A socket follows a room exactly since it subscribed as a current unbanned member, until it unsubscribes, is told to, or is handed an event of the room after losing the membership |
| FanoutHistories.DialogFollowersExactly | backend/apps/chat/consumers.py:221-239 | A socket follows a dialog exactly since it subscribed as one of its users, until it unsubscribes |
| FanoutHistories.ClosedExactly | backend/apps/chat/consumers.py:77-94 | A socket is closed exactly since it disconnected |
| FanoutHistories.PublishingReaches | backend/apps/chat/realtime/fanout.py:48-201 | A publication comes to a channel whose handler is through exactly when it is about a room or dialog the socket follows, for its user, or about presence |
| FanoutHistories.EventTypesExactly | backend/apps/chat/realtime/fanout.py:48-201 | Each kind of publication has its own event type |
| FanoutHistories.PrivateRoomsStayHidden | backend/apps/chat/consumers.py:384-392 | To a non-member a private room answers like none at all; other refusals say forbidden |
| Sockets.ReportMakesOnline | backend/apps/chat/consumers.py:55-75 | Opening a socket, and a heartbeat that reports use, makes the user online at once, in fact and in the stored row, and keeps them so for the time to live or the minute |
| Sockets.SocketEventsAreAllowed | backend/apps/chat/consumers.py:55-94 | In every run of sockets, each registration and close uses a key whose one owner is the user of the channel it names |
| Sockets.OnlyOpenAreRegistered | backend/apps/chat/consumers.py:55-94 | The keys registered and not closed are exactly the names of the open sockets' channels |
| Sockets.ListingShowsOpenSockets | backend/apps/chat/consumers.py:189-202 | In every reachable state of sockets and registry together, a user's listing shows exactly the user's open sockets that registered or heartbeated within the time to live |
| ChatConsumer.Socket.Connect | backend/apps/chat/consumers.py:55-75 | Without a session the socket closes at once; otherwise it joins its groups, opens, and registers in the presence service under its channel's name |
| ChatConsumer.Socket.Disconnect | backend/apps/chat/consumers.py:77-94 | Two loops leave every subscribed group and the presence registration goes; a settled channel ends in no group, other channels are untouched |
| ChatConsumer.Socket.HandlePresenceHeartbeat | backend/apps/chat/consumers.py:189-202 | A heartbeat renews the registration under the same key |
| ChatConsumer.Socket.HandleRoomSubscribe | backend/apps/chat/consumers.py:204-211 | Joins group and set together when live access allows, and changes nothing otherwise |
| ChatConsumer.Socket.HandleRoomUnsubscribe | backend/apps/chat/consumers.py:213-219 | Leaves group and set together |
| ChatConsumer.Socket.HandleDialogSubscribe | backend/apps/chat/consumers.py:221-231 | Only a participant joins; anybody else is told that the dialog does not exist |
| ChatConsumer.Socket.HandleDialogUnsubscribe | backend/apps/chat/consumers.py:233-239 | Leaves group and set together |
| ChatConsumer.Socket.BroadcastEvent | backend/apps/chat/consumers.py:168-177 | Forwards, or drops the event and leaves a room the user may no longer hear |
| ChatConsumer.Socket.MembershipForceRoomUnsubscribe | backend/apps/chat/consumers.py:179-184 | Leaves the room when subscribed |
| Rooms.RunKeepsInvariant | backend/apps/chat/services.py:215-292 | Every run of room transactions keeps: one owner per room who is its owner column, no banned member, read states of members only, one pending invitation per room and user |
| Rooms.ExactlyOneOwner | backend/apps/chat/services.py:215-234 | In every reachable state the room's owner column names its one OWNER membership |
| Rooms.BanCheckIsRedundant | backend/apps/chat/services.py:127-139 | The ban check behind the membership check never decides |
| Rooms.AlreadyBannedIsUnreachable | backend/apps/chat/services.py:477-501 | Banning succeeds exactly when moderation is allowed; the already-banned branch is never taken |
| Rooms.AcceptingKeepsRoles | backend/apps/chat/services.py:377-402 | Accepting makes the invited user a member and changes no existing membership's role |
| Rooms.OwnerIsForever | backend/apps/chat/services.py:237-292 | Short of deleting the room, no run changes its owner |
| Rooms.BanHolds | backend/apps/chat/services.py:477-530 | A banned user is out of the room until the ban is lifted or the room deleted |
| Rooms.MembersEnteredThemselves | backend/apps/chat/services.py:215-281 | In every run, whoever is a member entered by an act of their own (creating the room, joining it while public, accepting an open invitation), not banned then, and has stayed since |
| Rooms.InvitationsWereIssuedByAdmins | backend/apps/chat/services.py:355-374 | In every run, every invitation was issued by somebody who was then an admin or the owner of that private room, for a user without a ban |
| Rooms.AdminsWerePromotedByTheOwner | backend/apps/chat/services.py:417-436 | In every run, whoever is an admin was promoted by the room's owner and has been one since |
| Rooms.FormerMembersExitedRightfully | backend/apps/chat/services.py:284-292 | In every run, whoever was a member and is none left, was banned by somebody of higher rank, or lost the room to its owner's deletion |
| Rooms.LiftedBansWereLiftedByAdmins | backend/apps/chat/services.py:513-530 | In every run, a ban no longer in force was lifted by somebody who was then an admin, or went with the room |
| Rooms.VisibilityIsTheOwnersChoice | backend/apps/chat/services.py:215-249 | In every run, a room's visibility is what its owner chose last, in creating or updating it, and has stood since |
| RoomHistories.MembersExactly | backend/apps/chat/services.py:215-292 | The members of a room are exactly those who created, joined or accepted their way in, unbanned, and have not left, been banned by somebody of higher rank, or lost the room since |
| RoomHistories.AdminsExactly | backend/apps/chat/services.py:417-460 | The admins are exactly those whom the owner promoted and who were not demoted and did not depart since |
| RoomHistories.OwnersExactly | backend/apps/chat/services.py:215-268 | A room exists and is its creator's exactly until they delete it |
| RoomHistories.BansExactly | backend/apps/chat/services.py:477-530 | A ban is in force exactly since somebody of higher rank set it, until an admin lifts it or the room goes |
| RoomHistories.VisibilityExactly | backend/apps/chat/services.py:215-249 | A room's visibility is exactly the one its owner gave it last |
| RoomHistories.InvitationsExactly | backend/apps/chat/services.py:355-414 | An invitation is pending exactly since it was issued and until it is answered; accepted or rejected exactly since its answer, until the room goes |
| RoomHistories.ReadStatesExactly | backend/apps/chat/services.py:826-834 | A read state is there exactly since the member marked the room read, while they stay |
| RoomHistories.GrantedExactly | backend/apps/chat/services.py:215-530 | In every reachable state a request succeeds exactly when it is rightful and has something to do |
| RoomHistories.RefusalsExactly | backend/apps/chat/services.py:215-530 | In every reachable state a refusal is not found, conflict, invalid or forbidden exactly by what stands in the way |
| RoomService.Service.CreateRoom | backend/apps/chat/services.py:215-234 | Room and owner membership are created together; on an error nothing changes |
| RoomService.Service.UpdateRoom | backend/apps/chat/services.py:237-249 | Only the owner changes the room's columns; on an error nothing changes |
| RoomService.Service.DeleteRoom | backend/apps/chat/services.py:252-268 | Only the owner; every row of the room goes; on an error nothing changes |
| RoomService.Service.JoinRoom | backend/apps/chat/services.py:271-281 | Public rooms, unbanned non-members only; on an error nothing changes |
| RoomService.Service.LeaveRoom | backend/apps/chat/services.py:284-292 | Membership and read state go; the owner cannot leave; on an error nothing changes |
| RoomService.Service.CreateInvitation | backend/apps/chat/services.py:355-374 | Guards in order, one pending invitation per user; on an error nothing changes |
| RoomService.Service.AcceptInvitation | backend/apps/chat/services.py:377-402 | Found-or-created membership and the accepted status; on an error nothing changes |
| RoomService.Service.RejectInvitation | backend/apps/chat/services.py:405-414 | Only the invited user, only while pending; on an error nothing changes |
| RoomService.Service.PromoteAdmin | backend/apps/chat/services.py:417-436 | Owner promotes a plain member; on an error nothing changes |
| RoomService.Service.DemoteAdmin | backend/apps/chat/services.py:439-460 | Guards in order; an admin cannot demote themselves; on an error nothing changes |
| RoomService.Service.CreateBan | backend/apps/chat/services.py:477-501 | Membership and read state go before the ban row is looked at; giving up rolls them back; on an error nothing changes |
| RoomService.Service.RemoveBan | backend/apps/chat/services.py:513-530 | Lifts an active ban only; on an error nothing changes |
| RoomService.Service.MarkRead | backend/apps/chat/services.py:826-834 | Creates the read state of a member with message access; on an error nothing changes |
| Social.RunKeepsInvariant | backend/apps/social/services.py:117-252 | Every run of social transactions keeps all dialogs' cached state sound, one pending request per unordered pair, and none between friends |
| Social.FrozenFlagIsExact | backend/apps/social/services.py:44-71 | The cached flag is exactly not friends or an active ban either way; a reason exactly when set; peer_ban only while a ban is active and the friendship gone |
| Social.RecheckIsRedundant | backend/apps/chat/services.py:740-757 | Checking friendship and bans again rejects nobody whom the frozen check let through |
| Social.PendingRequestsAreRare | backend/apps/social/services.py:117-150 | At most one pending request per unordered pair, and no pending request between friends |
| Social.AcceptAlwaysCreates | backend/apps/social/services.py:153-173 | Accepting never finds the friendship already there, and adds exactly that one |
| Social.UnderBanExactly | backend/apps/social/services.py:153-173 | For every state and step: two users become friends under a ban exactly when one accepts the other's pending request while a ban is active between them |
| Social.NobodyUnderBanExactly | backend/apps/social/services.py:153-173 | A step keeps everybody free of friendships under a ban exactly when it is not such an acceptance |
| Social.NeverUnderBanExactly | backend/apps/social/services.py:153-233 | A run from the start never has friends under a ban exactly when none of its actions is such an acceptance |
| Social.FriendshipsWereAgreed | backend/apps/social/services.py:117-173 | In every run, two users are friends only because one asked and later the other accepted that request, and neither has ended it since |
| Social.RequestsWereAsked | backend/apps/social/services.py:117-150 | In every run, every request was sent by its sender to its receiver when no ban or friendship stood between them |
| Social.BansWereSetByTheirSource | backend/apps/social/services.py:209-252 | In every run, an active ban was set by its source and not lifted since |
| Social.AskingNeedsAClearPair | backend/apps/social/services.py:117-150 | Asking succeeds exactly for an existing, different user with no ban, friendship or pending request between the two, in either direction |
| SocialHistories.FriendshipsExactly | backend/apps/social/services.py:153-233 | Two users are friends exactly since one accepted the other's pending request, until one of them unfriends or bans the other |
| SocialHistories.BansExactly | backend/apps/social/services.py:209-252 | A ban is in force exactly since its source set it on another user, until its source lifts it |
| SocialHistories.RequestsExactly | backend/apps/social/services.py:117-189 | A request is pending exactly since it was asked over a clear pair, until its receiver answers; accepted or rejected since the answer |
| SocialHistories.DialogsExactly | backend/apps/chat/services.py:545-557 | A dialog exists exactly since two unbanned friends opened it |
| SocialHistories.BanReasonExactly | backend/apps/social/services.py:44-71 | A dialog names a ban as the reason exactly since a ban while it was open, until an acceptance or a lifted ban works its state out anew |
| SocialHistories.GrantedExactly | backend/apps/social/services.py:117-252 | An action succeeds exactly when it is rightful and has something to do |
| SocialHistories.RefusalsExactly | backend/apps/social/services.py:117-252 | A refusal is not found, invalid, forbidden or conflict exactly by what stands in the way |
| SocialService.Service.FreezeDialogForPair | backend/apps/social/services.py:44-57 | An existing dialog becomes frozen for the reason |
| SocialService.Service.RefreshDialogStateForPair | backend/apps/social/services.py:60-71 | An existing dialog's state is computed anew |
| SocialService.Service.CreateFriendRequest | backend/apps/social/services.py:117-150 | Guards in order, in both directions; on an error nothing changes |
| SocialService.Service.AcceptFriendRequest | backend/apps/social/services.py:153-173 | Friendship, status and dialog state; on an error nothing changes |
| SocialService.Service.RejectFriendRequest | backend/apps/social/services.py:176-189 | Only the receiver, only while pending; on an error nothing changes |
| SocialService.Service.RemoveFriend | backend/apps/social/services.py:192-206 | The friendship goes and the dialog freezes; on an error nothing changes |
| SocialService.Service.CreatePeerBan | backend/apps/social/services.py:209-233 | The friendship goes before the ban row is looked at; a conflict brings it back; on an error nothing changes |
| SocialService.Service.RemovePeerBan | backend/apps/social/services.py:236-252 | Lifts an active ban and computes the dialog anew; on an error nothing changes |
| SocialService.Service.GetOrCreateDialog | backend/apps/chat/services.py:545-557 | Unbanned friends get their dialog, created unfrozen when missing, and learn whether it was created |
| Messages.RunKeepsInvariant | backend/apps/chat/services.py:666-823 | Every run of uploads, discards, posts, edits, deletions and room deletions keeps bindings, blobs, contents and replies sound |
| Messages.BindingTypeIsExact | backend/apps/chat/services.py:166-184 | An attachment is unbound exactly when no binding row names it; else exactly one does, in the table of its binding type, for a message by its uploader |
| Messages.BlobsAreExact | backend/apps/attachments/services.py:123-178 | The stored blobs are those of the attachment rows, after failed uploads and cascades too |
| Messages.MessagesAreNeverEmpty | backend/apps/chat/services.py:149-163 | Every stored message has text that is not blank or an attachment, and at most 3072 bytes of text |
| Messages.ReplyChainsStayInChat | backend/apps/chat/services.py:640-663 | Reply chains end, go strictly back in time and stay in one chat |
| Messages.RepliesNeverEscape | backend/apps/chat/services.py:640-663 | The same from every stored message after every run, deletions included |
| Messages.CreateBindsWhatWasAsked | backend/apps/chat/services.py:666-696 | A post binds exactly the attachments asked for and leaves all other bindings alone |
| Messages.AttachmentFollowsItsMessage | backend/apps/attachments/services.py:83-120 | An attachment is open to whoever may hear the chat of its message, and to its uploader alone while unbound |
| Messages.TextsAreTheirSendersOwn | backend/apps/chat/services.py:666-714 | In every run, every stored text was posted or edited in by the message's sender, in its chat, and has stood there since |
| Messages.Utf8LengthExactly | backend/apps/chat/services.py:149-163 | A character counts the fewest bytes of UTF-8 that reach it, and a text the sum of its parts |
| MessageHistories.StoredExactly | backend/apps/chat/services.py:666-737 | A message is there, in its chat, under its sender's name and with its time, exactly since that sender posted it acceptably while they could talk, until its author, an admin or the room's end withdraws it |
| MessageHistories.TextsExactly | backend/apps/chat/services.py:666-714 | A message has exactly the text its author posted or last edited in |
| MessageHistories.EditedExactly | backend/apps/chat/services.py:699-714 | A message counts as edited exactly since its author's first edit that went through |
| MessageHistories.RepliesExactly | backend/apps/chat/services.py:640-696 | A message replies to another exactly since it was posted as a reply to it, until one of the two is withdrawn |
| MessageHistories.CarriedExactly | backend/apps/chat/services.py:166-184 | A message carries exactly the attachments it was posted with, until it is withdrawn |
| MessageHistories.AttachmentsExactly | backend/apps/attachments/services.py:123-178 | An attachment is there, with its uploader, key and size, exactly since its upload went through, until it is discarded unbound or goes with its message |
| MessageHistories.PostingExactly | backend/apps/chat/services.py:666-696 | A post succeeds exactly when its sender may send and it shows something, replies within its chat, and attaches different unbound uploads of the sender |
| MessageHistories.RefusalsExactly | backend/apps/chat/services.py:740-823 | A refused request about messages or attachments is not found, forbidden, invalid, failed or conflict exactly by what stands in the way |
| MessageHistories.ClosedAttachmentsStayHidden | backend/apps/attachments/services.py:83-120 | An attachment one may not open answers like one that does not exist |
| Chat.PartsRunAlone | backend/apps/chat/services.py:215-530 | Whatever goes on in the chats, rooms and friendships are exactly what their own requests make of them |
| Chat.RunKeepsInvariant | backend/apps/chat/services.py:666-823 | Rooms, social state and messages stay sound together over every run, every message's chat exists, and a dialog message's sender is one of its users |
| Chat.SendingExactly | backend/apps/chat/services.py:740-757 | The send checks let exactly those through who may talk: unbanned members of the room, or friends without a ban in an unfrozen dialog |
| Chat.SendersCouldTalk | backend/apps/chat/services.py:666-678 | In every run, every stored message was posted by its sender at a moment when they could talk in its chat |
| Chat.GoneMessagesWereRemovedRightfully | backend/apps/chat/services.py:717-737 | In every run, a message that is gone was removed by its author, by somebody who was then an admin or the owner of its room, or with the room by its owner |
| Chat.AttachmentsFollowMembership | backend/apps/attachments/services.py:83-120 | In every reachable state a bound attachment opens exactly for the members of its message's room or the two users of its dialog, an unbound one for its uploader |
| MessageService.Service.LockOwnedUnbound | backend/apps/chat/services.py:166-184 | The loops accept exactly distinct, existing, own and unbound attachments |
| MessageService.Service.CreateMessage | backend/apps/chat/services.py:666-696 | Guards in order, then message, binding rows and binding types; on an error nothing changes |
| MessageService.Service.UpdateMessage | backend/apps/chat/services.py:699-714 | Only the author; the text is validated against the attachments kept; on an error nothing changes |
| MessageService.Service.DeleteMessage | backend/apps/chat/services.py:717-737 | Author or room moderator; attachments, bindings and blobs go, replies are nulled; on an error nothing changes |
| MessageService.Service.DeleteRoom | backend/apps/chat/services.py:252-268 | The room's attachments with their blobs, then its messages; on an error nothing changes |
| MessageService.Service.CreateAttachment | backend/apps/attachments/services.py:123-155 | Blob before row; a failing row takes the blob out again; on an error nothing changes |
| MessageService.Service.DeleteUnboundAttachment | backend/apps/attachments/services.py:158-164 | Only the uploader, only while unbound; on an error nothing changes |
| MessageService.Service.DeleteAttachmentRows | backend/apps/attachments/signals.py:8-10 | Deleting rows deletes their bindings and fires the blob deletion |
| MessageService.Service.Transact | backend/apps/chat/services.py:666-823 | One request as a transaction: the state keeps the joint invariant and moves as the specification says, with its error |
| Unread.WatermarkRefinesUnreadSet | backend/apps/chat/services.py:826-848 | After any history the messages above the timestamp watermark are exactly the explicit unread set |
| Unread.CountersMatchHistory | backend/apps/chat/services.py:560-608 | The loop counter and the query both equal the number of surviving messages by others since the last mark-read, or all of them without a read state |
| Unread.QueryMatchesLoop | backend/apps/chat/services.py:597-608 | Filtering in the database counts what the loop counts, for any rows and marks |
| Unread.WatermarkMovesBackExactly | backend/apps/chat/services.py:826-834 | Deleting a message and marking again moves the watermark back exactly when it was the newest and an older one remains |
| Unread.RunTracks | backend/apps/chat/services.py:666-737 | Rows stay in sending order with distinct ids, and agree with the surviving messages |
| Unread.SparseSummaryIsLossless | backend/apps/presence/services.py:129-154 | Leaving chats without unread messages out of the summary loses nothing: the client's lookup gives every listed chat its count |
| ReadStates.RowsAreTheChats | backend/apps/chat/services.py:826-848 | After any run of chat requests the counted rows are the stored messages with their times, the rooms' read states are those the room transactions keep, and everybody with a read state attends the chat |
| ReadStates.CountersCountUnread | backend/apps/chat/services.py:295-337 | In every reachable state, loop counter and query give the number of messages by others in the chat, less those that were there when the user marked it read, with access, and stayed ever since |
| ReadStates.ComingBackUnreadsAll | backend/apps/chat/services.py:284-292 | Whoever was out of a room and has not marked it read since finds every message of the others unread |
| UnreadService.Service.DeleteChat | backend/apps/chat/services.py:252-268 | Deleting a room takes its messages and read states along and no others |
| UnreadService.Service.ListUnreadCounts | backend/apps/chat/services.py:304-330 | One pass over all chats' rows fills every listed chat's counter with the size of its unread set |
| UnreadService.Service.GetUnreadCount | backend/apps/chat/services.py:597-608 | The query returns the size of the unread set |
| UnreadService.Service.PickLastMessages | backend/apps/chat/services.py:586-594 | The first row kept per chat is the chat's newest message |
| UnreadService.Service.MarkRead | backend/apps/chat/services.py:837-848 | The mark is the newest message's time, or now for an empty chat |
| UnreadService.Service.DropReadState | backend/apps/chat/services.py:284-292 | Leaving or being banned forgets the mark |
| UnreadService.Service.SendMessage | backend/apps/chat/services.py:666-696 | Appends the message with the current time; messages and marks otherwise stay |
| UnreadService.Service.DeleteMessage | backend/apps/chat/services.py:717-737 | Takes exactly that message's row away; marks stay |
| Decimal.NumberOfText | backend/apps/attachments/storage.py:208-214 | Reading a printed number gives it back |
| ByteRange.MatchIsExact | backend/apps/attachments/views.py:26-26 | The pattern accepts exactly `bytes=`, digits, a dash and digits, in one way |
| ByteRange.OtherHeadersAreIgnored | backend/apps/attachments/views.py:57-72 | A header takes effect only when it is one printed range between whitespace, without a comma |
| ByteRange.SurroundingSpaceIsIgnored | backend/apps/attachments/views.py:65-65 | Whitespace around a single range makes no difference |
| ByteRange.ServesExactlyTheSelection | backend/apps/attachments/views.py:57-92 | A part is served exactly for the valid satisfiable ranges of RFC 9110 section 14.1.2, and it is the selected set of positions |
| ByteRange.RejectsExactlyBeyondTheEnd | backend/apps/attachments/views.py:82-85 | 416 exactly when a first position beyond the end is given; agrees with unsatisfiability except for `bytes=-0` and for invalid ranges that start beyond the end |
| ByteRange.RangesServedUnlikeTheirMeaning | backend/apps/attachments/views.py:76-90 | `bytes=-0` of ten bytes gets all of them; `bytes=20-5` gets 416 for ten bytes and the whole file for thirty |
| ByteRange.FailsExactlyOnOversizedNumerals | backend/apps/attachments/views.py:76-88 | A numeral that has to be read fails the request exactly when it has more than 4300 digits |
| ByteRange.PartsAreInBounds | backend/apps/attachments/views.py:57-92 | A served part lies within a non-empty file; for an empty one it would be 0 to -1 |
| ByteRange.PrintedRangeParsesBack | backend/apps/attachments/storage.py:208-214 | The range the object-store backend prints parses back to itself |
| ByteRange.ContentRangeIsUnambiguous | backend/apps/attachments/views.py:113-116 | Content-Range names one range of one size |
| Download.IterChunks | backend/apps/attachments/views.py:33-50 | For every chunk size and pattern of short reads the non-empty chunks add up to the limit's part of the file, and the handle ends up closed |
| Download.OpenBlob | backend/apps/attachments/storage.py:81-89 | Seeking to the start, or asking the object store for the range, gives a handle on the right bytes |
| Download.DownloadAttachment | backend/apps/attachments/views.py:95-117 | For every non-empty blob of the recorded size, every header and either backend: the whole blob or exactly the parsed slice, Content-Length counts the bytes, Content-Range names the slice |
| Backfill.RowsAreIndependent | backend/apps/attachments/management/commands/backfill_attachments_to_object_storage.py:45-95 | The loop refines a table: each row's verdict and object follow from the stores before the run |
| Backfill.ReachedExactly | backend/apps/attachments/management/commands/backfill_attachments_to_object_storage.py:45-95 | The loop gets to a row exactly when no row before it stops the command, and finishes exactly when none does, judging by the stores before the run |
| Backfill.ReadViewIsKeptExactly | backend/apps/attachments/management/commands/backfill_attachments_to_object_storage.py:45-95 | Every key reads the same after the command exactly when no row it gets to leaves a truncated object, that is, a short upload whose size or deletion call raises |
| Backfill.TruncatedObjectStays | backend/apps/attachments/management/commands/backfill_attachments_to_object_storage.py:72-83 | A pass whose download changes: half a file is stored and reading its size raises |
| Backfill.VerdictsMeanWhatTheySay | backend/apps/attachments/management/commands/backfill_attachments_to_object_storage.py:45-95 | What each counter counts, over the whole run, in terms of the stores before it and the row's upload |
| Backfill.CopiedMeansPresent | backend/apps/attachments/management/commands/backfill_attachments_to_object_storage.py:72-95 | Every row a real run counts as copied is in the object store with its content and recorded size |
| Backfill.DryRunChangesNothing | backend/apps/attachments/management/commands/backfill_attachments_to_object_storage.py:67-70 | A dry run leaves the object store alone |
| Backfill.DryRunForecasts | backend/apps/attachments/management/commands/backfill_attachments_to_object_storage.py:67-70 | A dry run reports, row by row, what a run without failures then does |
| Backfill.RerunOnlyRetriesFailures | backend/apps/attachments/management/commands/backfill_attachments_to_object_storage.py:45-95 | A later run copies, among the finished rows, only those reported as failed |
| Backfill.RerunAfterSuccessIsIdle | backend/apps/attachments/management/commands/backfill_attachments_to_object_storage.py:45-95 | After a pass without failures a second one copies nothing and changes nothing |
| AttachmentStores.Stores.Handle | backend/apps/attachments/management/commands/backfill_attachments_to_object_storage.py:28-102 | Refuses a filesystem backend; otherwise the counters tally the verdicts and sum to the rows visited, and the store ends as the pass says |
| AttachmentStores.Stores.CopyRow | backend/apps/attachments/management/commands/backfill_attachments_to_object_storage.py:45-95 | One round: skip, missing, mismatch, dry run, failure with deletion, or copy |
| AttachmentStores.Stores.UploadFromPath | backend/apps/attachments/storage.py:194-206 | An upload may raise leaving nothing, or store a prefix |
| AttachmentStores.Stores.OpenForDownload | backend/apps/attachments/storage.py:328-338 | Object store first, then the legacy tree; the bytes within the range's length are the same from either tier |
| AttachmentStores.Stores.DeleteFromStorage | backend/apps/attachments/storage.py:341-348 | Deleting clears both tiers, so no legacy copy shows through, and no other key changes |
| AttachmentStores.Stores.PutBytes | backend/apps/attachments/storage.py:184-192 | Only the configured tier is written and only that key reads differently |
| LocalTree.Storage.PutBytes | backend/apps/attachments/storage.py:64-69 | Succeeds exactly when no parent is a file and the path no directory; creates missing parents; the tree stays tidy |
| LocalTree.Storage.Mkdir | backend/apps/attachments/storage.py:64-69 | Creates the missing parents, or nothing when a file is in the way |
| LocalTree.Storage.Delete | backend/apps/attachments/storage.py:100-114 | The pruning loop ends with exactly the directories that still lead to a file, the root and every other file untouched, for keys of any depth |
| LocalTree.PutThenDeleteRestores | backend/apps/attachments/storage.py:64-114 | Putting a new file and deleting it restores the tree, up to the root's creation |
| LocalTree.RemovingEmptyPrunes | backend/apps/attachments/storage.py:107-114 | Removing an empty directory keeps the rest of the tree sound while pruning walks up |
| LocalTree.StuckMeansTidy | backend/apps/attachments/storage.py:107-114 | Stopping at the root or at a non-empty directory leaves no useless directory |
| Cursor.DecodeUndoesEncode | backend/apps/chat/services.py:53-69 | The lenient decoder undoes the RFC 4648 section 5 encoding, for any octets |
| Cursor.CursorRoundTrip | backend/apps/chat/services.py:53-69 | Decoding an encoded offset gives it back for every offset up to 4300 digits; a longer one is refused when it is encoded |
| Cursor.ParseIntOfText | backend/apps/chat/services.py:63-65 | Reading a printed offset gives it back up to the digit limit |
| Cursor.NegativeCursorsAreRefused | backend/apps/chat/services.py:67-68 | An encoded negative number is refused |
| Cursor.ForeignCharactersAreSkipped | backend/apps/chat/services.py:63-63 | The decoder skips characters of neither alphabet wherever they stand |
| Cursor.UnpaddedNeedsWholeGroups | backend/apps/chat/services.py:63-66 | Without padding a cursor decodes exactly when its symbols make up whole groups of four |
| CursorTexts.PaddingExactly | backend/apps/chat/services.py:63-66 | A text with padding decodes exactly when its symbols fill groups of four or the padding completes the last one |
| CursorTexts.AlphabetsExactly | backend/apps/chat/services.py:63-63 | Besides the encoder's alphabet only `+` and `/` stand for anything |
| CursorTexts.IntTextsParse | backend/apps/chat/services.py:63-75 | An integer is read from every text of spaces, a sign, and digits with single underscores, up to 4300 digits |
| CursorTexts.ParsedIntsHaveTheirForm | backend/apps/chat/services.py:63-75 | And from no other text |
| CursorTexts.NoCursorIsTheStart | backend/apps/chat/services.py:59-61 | Without a cursor the first page is meant |
| CursorTexts.ForeignScriptsAreRefused | backend/apps/chat/services.py:63-66 | A character outside ASCII spoils a cursor |
| Cursor.WindowOfPrintedNumbers | backend/apps/chat/services.py:72-84 | Printed numbers give the default or capped limit at the encoded offset; a zero limit is refused |
| Cursor.GetPageWindow | backend/apps/chat/services.py:72-84 | A granted window has a positive limit of at most the maximum and the cursor's offset |
| Paging.PageIsStretch | backend/apps/chat/services.py:611-637 | A page is the stretch of the history between two distances from its newer end, oldest first, and has_next is exact |
| Paging.LastPageHasNoCursor | backend/apps/chat/views.py:624-656 | A page that reaches the oldest message names no cursor |
| Paging.NextCursorNamesNextWindow | backend/apps/chat/views.py:624-656 | Sending a page's cursor back gets the window right behind it; only an offset of more than 4300 digits fails the request |
| Paging.LoadHistory | frontend/src/App.tsx:822-835 | Following cursors and prepending pages rebuilds the whole history in order, every message once, in max(1, n / limit rounded up) requests; it fails exactly when some page starts at an offset too long to print |
| Paging.ArrivalsNeverHideMessages | frontend/src/App.tsx:822-835 | With messages arriving between requests no earlier message is skipped, and the list is as long as the covered history: each arrival not loaded repeats one row |
| Paging.FollowingToTheEndCoversHistory | frontend/src/App.tsx:822-835 | Followed to the end, the first history is covered completely |
| Paging.NoRepetitionExactly | frontend/src/App.tsx:822-835 | After any number of pages the list has no message twice exactly when the arrivals never moved a later page onto an earlier one, a condition on the numbers of arrivals alone |
| Paging.NoRepetitionOnceComplete | frontend/src/App.tsx:822-835 | Loaded to the end, that is exactly when nothing arrived between the first and the last request |
| Paging.LoadedExactly | backend/apps/chat/services.py:611-637 | With any arrivals and deletions between the requests, a message is loaded exactly when it was within some request's reach at the time |
| Paging.SkippedByDeletions | backend/apps/chat/services.py:611-637 | A message that was there all the time and is skipped was carried past an offset by deletions of newer messages between two requests |
| Paging.ArrivalRepeatsARow | frontend/src/App.tsx:822-835 | One arrival between two requests: a row appears twice |
| Paging.DeletionSkipsAMessage | frontend/src/App.tsx:822-835 | One deletion between two requests: a message is missing |
| Paging.DeletionSkipsExactly | backend/apps/chat/services.py:611-637 | When a message is deleted after everything from any offset on was loaded, the next page skips a message exactly when the deleted one was among the loaded |
| Timestamps.TextOrder | backend/apps/chat/serializers.py:57-60 | Printed times order by second, and within a second whole seconds sort last |
| Timestamps.TextOrderIsTimeOrderExactly | frontend/src/lib/chatUtils.ts:46-54 | Comparing printed times compares the times exactly unless one of two times in a second is the whole second |
| MessageList.RunListsLatest | frontend/src/lib/chatUtils.ts:46-62 | After any run of created, updated and deleted events the list shows exactly the latest versions, sorted by printed time, each once |
| MessageList.MergingIgnoresOrderAndRepetition | frontend/src/lib/chatUtils.ts:46-54 | Merging the same finite set of created messages gives the same sorted list without duplicates for every order and repetition |
| MessageList.SameLatestSameList | frontend/src/lib/chatUtils.ts:46-62 | Runs with the same latest versions give the same list |
| MessageList.UpsertSorts | frontend/src/lib/chatUtils.ts:46-54 | Merging puts the new version in place of any older one and sorts |
| MessageList.TimeOrderExactly | frontend/src/lib/chatUtils.ts:46-54 | The list is in order of time exactly when, of the messages the events leave, no two of one second have one of them on the whole second |
| LiveList.SoundAllAlongExactly | frontend/src/App.tsx:822-835 | Under any mix of live events and loaded older pages, the list shows exactly what is known, sorted and without duplicates, all along exactly when every page fitted when it came: in order itself, and wholly before everything known by then |
| LiveList.PrependingExactly | frontend/src/App.tsx:822-835 | Putting a page in front keeps a sound list sound exactly when the page fits |
| LiveList.RepeatedRowDoesNotFit | frontend/src/App.tsx:822-835 | A page with a row the list already has never fits |
| MessageList.WholeSecondSortsLast | frontend/src/lib/chatUtils.ts:46-54 | Such a pair is shown in the wrong order |
| MessageList.RemoveKeepsSorted | frontend/src/lib/chatUtils.ts:60-62 | Removing a message keeps the order of the rest |

## Left out

- UnreadService.Service.MarkRead: who may mark a chat is not checked here; `ReadStates.EventOf` takes the check from the rooms and dialogs of the moment.
- UnreadService.Service.SendMessage: a row carries id, chat, sender and time only; text, replies, attachments and access are in `Messages` and `Chat`; `ReadStates.RowsAreTheChats` ties the rows to them.
- UnreadService.Service.DeleteMessage: who may delete is in `Chat`; `ReadStates.EventOf` takes it from there.
- UnreadService.Service.DeleteChat: who may delete the room, likewise.
- AttachmentStores.Stores.PutBytes: a put that fails is in `MessageService.Service.CreateAttachment`, directories are in `LocalTree`.
- Download.DownloadAttachment: blobs that are empty or differ in length from the recorded size; the size column is positive and an upload records the size it stores.
- RoomService.Service.CreateRoom: names, descriptions, the unique-name failure and the moderation event.
- RoomService.Service.UpdateRoom: visibility is the only column; names and descriptions decide nothing else.
- RoomService.Service.DeleteRoom: the room's messages and attachments go in `MessageService.Service.DeleteRoom`; `Chat.Step` does both in one transaction.
- RoomService.Service.MarkRead: the stored time is in `UnreadService.Service.MarkRead`.
- MessageService.Service.CreateMessage: the access check is a verdict; `Chat.OnMessages` computes it from rooms and friendships.
- MessageService.Service.UpdateMessage: the same.
- MessageService.Service.DeleteMessage: the same, and the moderator role with it.
- MessageService.Service.DeleteRoom: the same, for the owner check.
- ChatConsumer.Socket.Connect: reading the session cookie is the input `authenticated`; publishing the returned payload is `Fanout`'s `Publish(Presence)`.
- ChatConsumer.Socket.Disconnect: publishing the returned payload, likewise.
- ChatConsumer.Socket.HandlePresenceHeartbeat: the acknowledgement, and publishing the returned payload, likewise.
- Framework plumbing: serializers beyond the printed times, routing, middleware, health checks, OpenAPI.
- Account deletion: it works through framework cascades and can leave an attachment without its binding.
- Sessions, login, passwords, reset tokens, email, and the SQL-only presence mode.
- Moderation events, room names and descriptions, and the unique-name integrity error.
- Interleaving inside one registry function or one transaction; the fan-out protocol does interleave
  single channel-layer operations, while each handler's access check and the forwarding of an event are one step.
- Expiry and capacity limits of the channel layer beyond losing queued events.
- The order of user identifiers as text: users are numbered in that order in `Social`.
- A write that breaks off in the middle of a filesystem upload, and blob deletions inside a transaction that is rolled back later.
- The backfill's `--source-root` option with a directory other than the default, attachments deleted while it runs, and its log lines.
- Storage keys with `.`, `..` or empty components, which the key builder never makes.
- Content-Type and Content-Disposition headers, and clients that disconnect in the middle of a stream.
- Limits given with non-ASCII digits or spaces, which `int` would accept: `ParseInt` takes ASCII only.
- `localeCompare` beyond the characters of printed times, where it orders like code points.
- React components, scroll handling, notifications and date formatting.
